/** The transaction pool (`txpool.DefaultPool`): per-address chains of
    price-sorted buckets, one shared list of all buckets, per-address queues
    of future-nonce transactions, and the set of seen transaction hashes. */
module TxPool {
  import opened Types
  import opened Sorting
  import opened StatDb

  /** Buckets are sorted by greater gas price first. */
  function PriceKey(tx: Transaction): int { tx.gasPrice }

  /** Queues are sorted by smaller nonce first. */
  function NonceKey(tx: Transaction): int { 0 - tx.nonce as int }

  ghost predicate PriceSorted(s: seq<Transaction>) {
    NonIncreasing(s, PriceKey)
  }

  ghost predicate NonceAscending(s: seq<Transaction>) {
    forall i, j :: 0 <= i < j < |s| ==> s[i].nonce <= s[j].nonce
  }

  /** The index of the first element satisfying `p`, if any. */
  function FirstWhere<T>(s: seq<T>, p: T -> bool): (k: Option<nat>)
    ensures k.None? <==> forall i :: 0 <= i < |s| ==> !p(s[i])
    ensures k.Some? ==> k.value < |s| && p(s[k.value])
                        && forall i :: 0 <= i < k.value ==> !p(s[i])
  {
    if s == [] then None
    else if p(s[0]) then Some(0)
    else match FirstWhere(s[1..], p)
      case None => None
      case Some(j) => Some(j + 1)
  }

  // ----- one bucket, as a value -------------------------------------------

  /** `DefaultSortedTxs.GasPrice`: the price of element 0, or 0 when empty;
      on a sorted bucket that is the highest price in it. */
  function BucketPrice(s: seq<Transaction>): (p: u64)
    ensures s == [] ==> p == 0
    ensures s != [] ==> p == s[0].gasPrice
    ensures PriceSorted(s) ==> forall i :: 0 <= i < |s| ==> s[i].gasPrice <= p
  {
    if s == [] then 0 else s[0].gasPrice
  }

  /** `DefaultSortedTxs.Nonce`: the nonce of the last element, or 0. */
  function BucketNonce(s: seq<Transaction>): (n: u64)
    ensures s == [] ==> n == 0
    ensures s != [] ==> n == s[|s| - 1].nonce
  {
    if s == [] then 0 else s[|s| - 1].nonce
  }

  function HasNonce(nonce: u64): Transaction -> bool {
    (t: Transaction) => t.nonce == nonce
  }

  /** `DefaultSortedTxs.Replace` on the bucket contents: overwrite the first
      transaction with the same nonce and re-sort; without one, no change. */
  function Replaced(s: seq<Transaction>, tx: Transaction): (r: seq<Transaction>)
    ensures |r| == |s|
    ensures FirstWhere(s, HasNonce(tx.nonce)).None? ==> r == s
    ensures FirstWhere(s, HasNonce(tx.nonce)).Some? ==>
              var i := FirstWhere(s, HasNonce(tx.nonce)).value;
              && PriceSorted(r)
              && multiset(r) == multiset(s) - multiset{s[i]} + multiset{tx}
  {
    match FirstWhere(s, HasNonce(tx.nonce))
    case None => s
    case Some(i) =>
      assert s == s[..i] + [s[i]] + s[i + 1..];
      assert s[i := tx] == s[..i] + [tx] + s[i + 1..];
      SortStable(s[i := tx], PriceKey)
  }

  /** How many leading elements are priced at least `price`. */
  function LeadAtLeast(s: seq<Transaction>, price: u64): (k: nat)
    ensures k <= |s|
  {
    if s == [] || s[0].gasPrice < price then 0 else 1 + LeadAtLeast(s[1..], price)
  }

  /** Pushing onto a sorted bucket puts `tx` behind every transaction priced
      at least as high and ahead of every cheaper one. */
  lemma PushPlacement(s: seq<Transaction>, tx: Transaction)
    requires PriceSorted(s)
    ensures var k := LeadAtLeast(s, tx.gasPrice);
      && SortStable(s + [tx], PriceKey) == s[..k] + [tx] + s[k..]
      && (forall i :: 0 <= i < k ==> s[i].gasPrice >= tx.gasPrice)
      && (forall i :: k <= i < |s| ==> s[i].gasPrice < tx.gasPrice)
  {
    AppendThenSort(s, tx, PriceKey);
    InsertSplits(s, tx);
    LeadAtLeastPrefix(s, tx.gasPrice);
    LeadAtLeastSuffix(s, tx.gasPrice);
  }

  lemma {:induction false} InsertSplits(s: seq<Transaction>, tx: Transaction)
    ensures var k := LeadAtLeast(s, tx.gasPrice);
      Insert(s, tx, PriceKey) == s[..k] + [tx] + s[k..]
  {
    if s != [] && s[0].gasPrice >= tx.gasPrice {
      var t := s[1..];
      InsertSplits(t, tx);
      var k := LeadAtLeast(t, tx.gasPrice);
      assert LeadAtLeast(s, tx.gasPrice) == k + 1;
      assert Insert(s, tx, PriceKey) == [s[0]] + (t[..k] + [tx] + t[k..]);
      assert s[..k + 1] == [s[0]] + t[..k];
      assert s[k + 1..] == t[k..];
      AppendAssoc([s[0]], t[..k] + [tx], t[k..]);
      AppendAssoc([s[0]], t[..k], [tx]);
    }
  }

  lemma {:induction false} LeadAtLeastPrefix(s: seq<Transaction>, price: u64)
    ensures forall i :: 0 <= i < LeadAtLeast(s, price) ==> s[i].gasPrice >= price
  {
    if s != [] && s[0].gasPrice >= price {
      LeadAtLeastPrefix(s[1..], price);
      forall i | 1 <= i < LeadAtLeast(s, price) ensures s[i].gasPrice >= price {
        assert s[i] == s[1..][i - 1];
      }
    }
  }

  lemma {:induction false} LeadAtLeastSuffix(s: seq<Transaction>, price: u64)
    requires PriceSorted(s)
    ensures forall i :: LeadAtLeast(s, price) <= i < |s| ==> s[i].gasPrice < price
  {
    if s == [] {
    } else if s[0].gasPrice < price {
      forall i | 0 <= i < |s| ensures s[i].gasPrice < price {
        assert s[i].gasPrice <= s[0].gasPrice;
      }
    } else {
      var t := s[1..];
      assert PriceSorted(t) by {
        forall i, j | 0 <= i < j < |t| ensures PriceKey(t[i]) >= PriceKey(t[j]) {
          assert t[i] == s[i + 1] && t[j] == s[j + 1];
        }
      }
      LeadAtLeastSuffix(t, price);
      forall i | LeadAtLeast(s, price) <= i < |s| ensures s[i].gasPrice < price {
        assert s[i] == t[i - 1];
      }
    }
  }

  /** The bucket order is by price only: a higher-priced later nonce jumps
      ahead of an earlier one, and the bucket's tail nonce then reports the
      earlier nonce. */
  lemma PriceOrderOverridesNonceOrder(tx1: Transaction, tx2: Transaction)
    requires tx1.nonce == 1 && tx1.gasPrice == 1
    requires tx2.nonce == 2 && tx2.gasPrice == 5
    ensures SortStable([tx1] + [tx2], PriceKey) == [tx2, tx1]
    ensures BucketNonce(SortStable([tx1] + [tx2], PriceKey)) == 1
  {
    AppendThenSort([tx1], tx2, PriceKey);
    assert Insert([tx1], tx2, PriceKey) == [tx2, tx1];
  }

  // ----- the bucket list, as a value --------------------------------------

  function NonEmpty(): seq<Transaction> -> bool {
    (b: seq<Transaction>) => b != []
  }

  function Covers(nonce: u64): seq<Transaction> -> bool {
    (b: seq<Transaction>) => BucketNonce(b) >= nonce
  }

  /** `pendingTxs.Less`: ascending by bucket price. */
  ghost predicate PricesAscending(bs: seq<seq<Transaction>>) {
    forall i, j :: 0 <= i < j < |bs| ==> BucketPrice(bs[i]) <= BucketPrice(bs[j])
  }

  /** On a bucket list sorted by `pendingTxs.Less`, the first non-empty
      bucket is a cheapest one: the pool serves the lowest price first. */
  lemma PopServesCheapest(bs: seq<seq<Transaction>>)
    requires PricesAscending(bs)
    requires FirstWhere(bs, NonEmpty()).Some?
    ensures var k := FirstWhere(bs, NonEmpty()).value;
      forall j :: 0 <= j < |bs| && bs[j] != [] ==> bs[k][0].gasPrice <= bs[j][0].gasPrice
  {
    var k := FirstWhere(bs, NonEmpty()).value;
    assert forall i :: 0 <= i < k ==> bs[i] == [] by {
      forall i | 0 <= i < k ensures bs[i] == [] {
        assert !NonEmpty()(bs[i]);
      }
    }
    forall j | 0 <= j < |bs| && bs[j] != [] ensures bs[k][0].gasPrice <= bs[j][0].gasPrice {
      if k < j {
        assert BucketPrice(bs[k]) <= BucketPrice(bs[j]);
      }
    }
  }

  // ----- admission routing -----------------------------------------------

  datatype Route = Drop | Enqueue | PushPending | ReplacePending

  /** `NewTx`'s four-way decision, from the committed account, the tail
      nonce of the address's last bucket (when it has one) and the incoming
      nonce. `nonce + 1` is computed in uint64. */
  function Classify(account: Option<Account>, tail: Option<u64>, nonce: u64): (r: Route)
    ensures r == Drop <==> account.None? || account.value.nonce >= nonce
    ensures r != Drop ==>
      var expected := if tail.Some? then tail.value else account.value.nonce;
      && (r == Enqueue <==> nonce > Inc64(expected))
      && (r == PushPending <==> nonce == Inc64(expected))
    ensures tail.None? ==> r != ReplacePending
  {
    if account.None? || account.value.nonce >= nonce then Drop
    else
      var expected := if tail.Some? then tail.value else account.value.nonce;
      if nonce > Inc64(expected) then Enqueue
      else if nonce == Inc64(expected) then PushPending
      else ReplacePending
  }


  // ----- one bucket, as an object ---------------------------------------

  /** `DefaultSortedTxs`: one bucket of transactions from one address,
      kept in descending gas-price order. */
  class SortedTxs {
    var items: seq<Transaction>

    constructor (tx: Transaction)
      ensures items == [tx]
    {
      items := [tx];
    }

    /** The price of the first transaction, the highest when sorted. */
    function GasPrice(): (p: u64)
      reads this
      ensures items == [] ==> p == 0
      ensures items != [] ==> p == items[0].gasPrice
      ensures PriceSorted(items) ==> forall i :: 0 <= i < |items| ==> items[i].gasPrice <= p
    {
      BucketPrice(items)
    }

    /** The nonce of the last transaction. */
    function Nonce(): (n: u64)
      reads this
      ensures items == [] ==> n == 0
      ensures items != [] ==> n == items[|items| - 1].nonce
    {
      BucketNonce(items)
    }

    /** Append, then stable-sort by descending price. */
    method Push(tx: Transaction)
      modifies this
      ensures items == SortStable(old(items) + [tx], PriceKey)
      ensures |items| == |old(items)| + 1
      ensures multiset(items) == multiset(old(items)) + multiset{tx}
      ensures PriceSorted(items)
      ensures forall p :: WithKey(items, PriceKey, p) == WithKey(old(items) + [tx], PriceKey, p)
    {
      items := SortStable(items + [tx], PriceKey);
      forall p ensures WithKey(items, PriceKey, p) == WithKey(old(items) + [tx], PriceKey, p) {
        SortStableIsStable(old(items) + [tx], PriceKey, p);
      }
    }

    /** Overwrite the first element with `tx`'s nonce, then re-sort. */
    method Replace(tx: Transaction)
      modifies this
      ensures items == Replaced(old(items), tx)
    {
      var i := 0;
      while i < |items|
        invariant 0 <= i <= |items|
        invariant items == old(items)
        invariant forall j :: 0 <= j < i ==> !HasNonce(tx.nonce)(items[j])
      {
        if items[i].nonce == tx.nonce {
          assert FirstWhere(items, HasNonce(tx.nonce)) == Some(i);
          items := SortStable(items[i := tx], PriceKey);
          return;
        }
        i := i + 1;
      }
    }

    /** Remove and return the highest-priced transaction; nil when empty. */
    method Pop() returns (r: Option<Transaction>)
      modifies this
      ensures old(items) == [] ==> r.None? && unchanged(this)
      ensures old(items) != [] ==> r == Some(old(items)[0]) && items == old(items)[1..]
    {
      if items == [] {
        return None;
      }
      var first := items[0];
      items := items[1..];
      return Some(first);
    }
  }


  // ----- the pool's bucket arena, as values ------------------------------

  /** The handles of an arena of `n` buckets, in allocation order. */
  function Handles(n: nat): (r: seq<nat>)
    ensures |r| == n
    ensures forall i :: 0 <= i < n ==> r[i] == i
  {
    if n == 0 then [] else Handles(n - 1) + [n - 1]
  }

  /** Every handle in `hs` names a bucket of an arena of `n` buckets. */
  ghost predicate InArena(n: nat, hs: seq<nat>) {
    forall i :: 0 <= i < |hs| ==> hs[i] < n
  }

  /** A permutation of the handles names only buckets of the arena. */
  lemma ListedInArena(hs: seq<nat>, n: nat)
    requires Listed(hs, n)
    ensures InArena(n, hs)
  {
    forall i | 0 <= i < |hs| ensures hs[i] < n {
      assert hs[i] in multiset(Handles(n));
    }
  }

  /** The contents of the buckets that `hs` names in the arena `bs`. */
  function Contents(bs: seq<seq<Transaction>>, hs: seq<nat>): (r: seq<seq<Transaction>>)
    requires InArena(|bs|, hs)
    ensures |r| == |hs| && forall i :: 0 <= i < |hs| ==> r[i] == bs[hs[i]]
  {
    seq(|hs|, i requires 0 <= i < |hs| => bs[hs[i]])
  }

  /** `pendingTxs.Less` as a key for the non-increasing sort: the bucket
      with the lower price comes first. */
  function AscendingPrice(bs: seq<seq<Transaction>>): nat -> int {
    (h: nat) => if h < |bs| then 0 - BucketPrice(bs[h]) as int else 0
  }

  lemma SortedByAscendingPrice(bs: seq<seq<Transaction>>, hs: seq<nat>)
    requires InArena(|bs|, hs) && NonIncreasing(hs, AscendingPrice(bs))
    ensures PricesAscending(Contents(bs, hs))
  {
    var c := Contents(bs, hs);
    forall i, j | 0 <= i < j < |hs| ensures BucketPrice(c[i]) <= BucketPrice(c[j]) {
      assert AscendingPrice(bs)(hs[i]) >= AscendingPrice(bs)(hs[j]);
    }
  }

  /** `pushPendingTx` opens a new bucket when the sender has none, or when
      its last bucket is priced above `tx`. */
  function Opens(bs: seq<seq<Transaction>>, chain: seq<nat>, tx: Transaction): bool
    requires InArena(|bs|, chain)
  {
    chain == [] || BucketPrice(bs[chain[|chain| - 1]]) > tx.gasPrice
  }

  /** The position in `chain` of the bucket `replacePendingTx` replaces into:
      the first bucket whose tail nonce reaches `tx`'s, and only when that
      bucket is priced no higher than `tx`. */
  function ReplaceTarget(bs: seq<seq<Transaction>>, chain: seq<nat>, tx: Transaction): (k: Option<nat>)
    requires InArena(|bs|, chain)
    ensures k.Some? ==>
      && k.value < |chain|
      && BucketNonce(bs[chain[k.value]]) >= tx.nonce
      && BucketPrice(bs[chain[k.value]]) <= tx.gasPrice
      && forall i :: 0 <= i < k.value ==> BucketNonce(bs[chain[i]]) < tx.nonce
  {
    var c := Contents(bs, chain);
    match FirstWhere(c, Covers(tx.nonce))
    case None => None
    case Some(i) =>
      if BucketPrice(c[i]) <= tx.gasPrice then Some(i)
      else None
  }

  /** The target is decided by the first bucket whose tail nonce reaches
      `tx`'s, at position `i` (`i == |chain|` when there is none). */
  lemma ReplaceTargetAt(bs: seq<seq<Transaction>>, chain: seq<nat>, tx: Transaction, i: nat)
    requires InArena(|bs|, chain) && i <= |chain|
    requires i < |chain| ==> BucketNonce(bs[chain[i]]) >= tx.nonce
    requires forall j :: 0 <= j < i ==> BucketNonce(bs[chain[j]]) < tx.nonce
    ensures ReplaceTarget(bs, chain, tx)
         == if i < |chain| && BucketPrice(bs[chain[i]]) <= tx.gasPrice then Some(i) else None
  {
    var c := Contents(bs, chain);
    if i < |chain| {
      assert FirstWhere(c, Covers(tx.nonce)) == Some(i);
    } else {
      assert FirstWhere(c, Covers(tx.nonce)) == None;
    }
  }

  /** `replacePendingTx` replaces nothing exactly when no bucket of the
      chain reaches `tx`'s nonce, or the first one that does is priced above
      `tx`. */
  lemma NoReplaceTarget(bs: seq<seq<Transaction>>, chain: seq<nat>, tx: Transaction)
    requires InArena(|bs|, chain)
    ensures ReplaceTarget(bs, chain, tx).None? <==>
      || (forall i :: 0 <= i < |chain| ==> BucketNonce(bs[chain[i]]) < tx.nonce)
      || exists i :: 0 <= i < |chain|
           && BucketNonce(bs[chain[i]]) >= tx.nonce
           && BucketPrice(bs[chain[i]]) > tx.gasPrice
           && forall j :: 0 <= j < i ==> BucketNonce(bs[chain[j]]) < tx.nonce
  {
    var c := Contents(bs, chain);
    match FirstWhere(c, Covers(tx.nonce))
    case None =>
    case Some(i) =>
      if BucketPrice(c[i]) > tx.gasPrice {
        assert BucketNonce(bs[chain[i]]) >= tx.nonce;
      } else {
        assert forall i' :: 0 <= i' < |chain| && BucketNonce(bs[chain[i']]) >= tx.nonce ==> i <= i';
      }
  }

  /** The arena after `replacePendingTx`: the target bucket, if any, has
      `tx` replaced into it; every other bucket is as before. */
  function ReplacedIn(bs: seq<seq<Transaction>>, chain: seq<nat>, tx: Transaction): (r: seq<seq<Transaction>>)
    requires InArena(|bs|, chain)
    ensures |r| == |bs|
    ensures ReplaceTarget(bs, chain, tx).None? ==> r == bs
    ensures ReplaceTarget(bs, chain, tx).Some? ==>
      var h := chain[ReplaceTarget(bs, chain, tx).value];
      && r[h] == Replaced(bs[h], tx)
      && forall g :: 0 <= g < |bs| && g != h ==> r[g] == bs[g]
  {
    match ReplaceTarget(bs, chain, tx)
    case None => bs
    case Some(k) => bs[chain[k] := Replaced(bs[chain[k]], tx)]
  }

  /** Replacing keeps every bucket of the arena sorted by price. */
  lemma ReplacedInKeepsSorted(bs: seq<seq<Transaction>>, chain: seq<nat>, tx: Transaction)
    requires InArena(|bs|, chain)
    requires AllPriceSorted(bs)
    ensures AllPriceSorted(ReplacedIn(bs, chain, tx))
  {
    var r := ReplacedIn(bs, chain, tx);
    if ReplaceTarget(bs, chain, tx).Some? {
      var h := chain[ReplaceTarget(bs, chain, tx).value];
      ReplacedSorted(bs[h], tx);
    }
  }

  /** A replacement into a sorted bucket leaves it sorted. */
  lemma ReplacedSorted(s: seq<Transaction>, tx: Transaction)
    requires PriceSorted(s)
    ensures PriceSorted(Replaced(s, tx))
  {
  }

  /** The arena after `DefaultSortedTxs.Push` of `tx` onto bucket `h`. */
  function Pushed(bs: seq<seq<Transaction>>, h: nat, tx: Transaction): (r: seq<seq<Transaction>>)
    requires h < |bs|
    ensures |r| == |bs|
  {
    bs[h := SortStable(bs[h] + [tx], PriceKey)]
  }

  /** A Go map lookup that yields nil for a missing key. */
  function Lookup<V>(m: map<Address, seq<V>>, a: Address): seq<V> {
    if a in m then m[a] else []
  }

  /** The bucket list holds every bucket of the arena exactly once. */
  ghost predicate Listed(txs: seq<nat>, n: nat) {
    multiset(txs) == multiset(Handles(n))
  }

  /** Every chain names only buckets of the arena. */
  ghost predicate Chained(pendings: map<Address, seq<nat>>, n: nat) {
    forall a :: a in pendings ==> InArena(n, pendings[a])
  }

  ghost predicate AllPriceSorted(bs: seq<seq<Transaction>>) {
    forall h :: 0 <= h < |bs| ==> PriceSorted(bs[h])
  }

  ghost predicate QueuesSorted(queue: map<Address, seq<Transaction>>) {
    forall a :: a in queue ==> NonceAscending(queue[a])
  }

  /** Some address's chain holds the bucket with handle `h`. */
  ghost predicate InSomeChain(pendings: map<Address, seq<nat>>, h: nat) {
    exists a :: a in pendings && h in pendings[a]
  }

  /** Every bucket of the arena lies in the chain of exactly one address. */
  ghost predicate Owned(pendings: map<Address, seq<nat>>, n: nat) {
    && (forall h :: 0 <= h < n ==> InSomeChain(pendings, h))
    && (forall a, b, h :: a in pendings && b in pendings && h in pendings[a] && h in pendings[b] ==> a == b)
  }

  /** The pool's invariant, on the values of its fields: the bucket list
      holds every bucket exactly once and nothing else, chains name only
      existing buckets, every bucket lies in exactly one address's chain,
      every bucket is price-sorted and every queue nonce-sorted. */
  ghost predicate Invariant(txs: seq<nat>, bs: seq<seq<Transaction>>,
                            pendings: map<Address, seq<nat>>, queue: map<Address, seq<Transaction>>) {
    && Listed(txs, |bs|) && InArena(|bs|, txs)
    && Chained(pendings, |bs|) && Owned(pendings, |bs|)
    && AllPriceSorted(bs) && QueuesSorted(queue)
  }

  /** Sorting by `NonceKey` orders by ascending nonce. */
  lemma NonceSortAscends(s: seq<Transaction>)
    ensures NonceAscending(SortStable(s, NonceKey))
  {
    var r := SortStable(s, NonceKey);
    forall i, j | 0 <= i < j < |r| ensures r[i].nonce <= r[j].nonce {
      assert NonceKey(r[i]) >= NonceKey(r[j]);
    }
  }

  /** `sort.Sort(pool.txs)` permutes the bucket list and keeps the invariant. */
  lemma ResortKeepsInvariant(txs: seq<nat>, t: seq<nat>, bs: seq<seq<Transaction>>,
                             pendings: map<Address, seq<nat>>, queue: map<Address, seq<Transaction>>)
    requires Invariant(txs, bs, pendings, queue) && multiset(t) == multiset(txs)
    ensures Invariant(t, bs, pendings, queue)
  {
    ListedInArena(t, |bs|);
  }

  /** `addQueueTx` keeps the invariant. */
  lemma EnqueueKeepsInvariant(txs: seq<nat>, bs: seq<seq<Transaction>>,
                              pendings: map<Address, seq<nat>>, queue: map<Address, seq<Transaction>>,
                              a: Address, tx: Transaction)
    requires Invariant(txs, bs, pendings, queue)
    ensures Invariant(txs, bs, pendings, queue[a := SortStable(Lookup(queue, a) + [tx], NonceKey)])
  {
    NonceSortAscends(Lookup(queue, a) + [tx]);
  }

  /** Pushing into an existing bucket keeps the invariant. */
  lemma PushKeepsInvariant(txs: seq<nat>, bs: seq<seq<Transaction>>,
                           pendings: map<Address, seq<nat>>, queue: map<Address, seq<Transaction>>,
                           h: nat, tx: Transaction)
    requires Invariant(txs, bs, pendings, queue) && h < |bs|
    ensures Invariant(txs, Pushed(bs, h, tx), pendings, queue)
  {
    var r := Pushed(bs, h, tx);
    assert forall g :: 0 <= g < |r| ==> PriceSorted(r[g]) by {
      forall g | 0 <= g < |r| ensures PriceSorted(r[g]) {
        if g != h {
          assert r[g] == bs[g];
        }
      }
    }
  }

  /** A new bucket under the next free handle, appended to a chain and to the
      bucket list, keeps the invariant. */
  lemma OpenKeepsInvariant(txs: seq<nat>, bs: seq<seq<Transaction>>,
                           pendings: map<Address, seq<nat>>, queue: map<Address, seq<Transaction>>,
                           a: Address, tx: Transaction)
    requires Invariant(txs, bs, pendings, queue)
    ensures Invariant(txs + [|bs|], bs + [[tx]], pendings[a := Lookup(pendings, a) + [|bs|]], queue)
  {
    OpenKeepsListed(txs, |bs|);
    ListedInArena(txs + [|bs|], |bs| + 1);
    OpenKeepsSorted(bs, tx);
    OpenKeepsChained(pendings, |bs|, a);
    OpenKeepsOwned(pendings, |bs|, a);
  }

  /** The next free handle joins the bucket list. */
  lemma OpenKeepsListed(txs: seq<nat>, n: nat)
    requires Listed(txs, n)
    ensures Listed(txs + [n], n + 1)
  {
    assert Handles(n + 1) == Handles(n) + [n];
  }

  /** A one-transaction bucket is sorted. */
  lemma OpenKeepsSorted(bs: seq<seq<Transaction>>, tx: Transaction)
    requires AllPriceSorted(bs)
    ensures AllPriceSorted(bs + [[tx]])
  {
    var r := bs + [[tx]];
    forall g | 0 <= g < |r| ensures PriceSorted(r[g]) {
      if g < |bs| {
        assert r[g] == bs[g];
      }
    }
  }

  /** Extending a chain with the next free handle keeps every chain in the
      grown arena. */
  lemma OpenKeepsChained(pendings: map<Address, seq<nat>>, n: nat, a: Address)
    requires Chained(pendings, n)
    ensures Chained(pendings[a := Lookup(pendings, a) + [n]], n + 1)
  {
    var p := pendings[a := Lookup(pendings, a) + [n]];
    forall b | b in p ensures InArena(n + 1, p[b]) {
      if b != a {
        assert InArena(n, pendings[b]);
      } else if a in pendings {
        assert InArena(n, pendings[a]);
      }
    }
  }

  /** The next free handle, appended to `a`'s chain, is owned by `a` alone,
      and every older bucket keeps its one owner. */
  lemma OpenKeepsOwned(pendings: map<Address, seq<nat>>, n: nat, a: Address)
    requires Chained(pendings, n) && Owned(pendings, n)
    ensures Owned(pendings[a := Lookup(pendings, a) + [n]], n + 1)
  {
    var p := pendings[a := Lookup(pendings, a) + [n]];
    forall x, h | x in p && h in p[x] && h != n ensures x in pendings && h in pendings[x] {
      if x == a {
        assert h in Lookup(pendings, a);
      }
    }
    forall x | x in p && x != a ensures n !in p[x] {
      assert InArena(n, pendings[x]);
    }
    forall h | 0 <= h < n + 1 ensures InSomeChain(p, h) {
      if h == n {
        assert h in p[a];
      } else {
        assert InSomeChain(pendings, h);
        var b :| b in pendings && h in pendings[b];
        assert h in p[b];
      }
    }
  }

  /** Every transaction in a bucket of `a`'s chain was sent by `a`. */
  ghost predicate SentBy(bs: seq<seq<Transaction>>, pendings: map<Address, seq<nat>>, crypto: Crypto) {
    forall a, h, t :: a in pendings && h in pendings[a] && h < |bs| && t in bs[h] ==> crypto.sender(t) == a
  }

  /** Overwriting bucket `h` keeps `SentBy` when each owner of `h` sent
      every transaction of the new bucket. */
  lemma SentByUpdate(bs: seq<seq<Transaction>>, pendings: map<Address, seq<nat>>, crypto: Crypto,
                     h: nat, b: seq<Transaction>)
    requires SentBy(bs, pendings, crypto) && h < |bs|
    requires forall a, t :: a in pendings && h in pendings[a] && t in b ==> crypto.sender(t) == a
    ensures SentBy(bs[h := b], pendings, crypto)
  {
    var r := bs[h := b];
    forall a, g, t | a in pendings && g in pendings[a] && g < |r| && t in r[g] ensures crypto.sender(t) == a {
      if g != h {
        assert t in bs[g];
      }
    }
  }

  /** A bucket of `from`'s chain that gains `tx`, sent by `from`, and
      otherwise holds only transactions it held, keeps `SentBy`. */
  lemma SentByGains(bs: seq<seq<Transaction>>, pendings: map<Address, seq<nat>>, crypto: Crypto,
                    from: Address, h: nat, b: seq<Transaction>, tx: Transaction)
    requires SentBy(bs, pendings, crypto) && Owned(pendings, |bs|) && h < |bs|
    requires from in pendings && h in pendings[from] && crypto.sender(tx) == from
    requires multiset(b) <= multiset(bs[h]) + multiset{tx}
    ensures SentBy(bs[h := b], pendings, crypto)
  {
    forall a, t | a in pendings && h in pendings[a] && t in b ensures crypto.sender(t) == a {
      assert t in multiset(bs[h]) + multiset{tx} by {
        assert t in multiset(b);
      }
      if t != tx {
        assert t in bs[h];
      }
    }
    SentByUpdate(bs, pendings, crypto, h, b);
  }

  /** A new bucket `[tx]` on the chain of `tx`'s sender keeps `SentBy`. */
  lemma OpenKeepsSentBy(bs: seq<seq<Transaction>>, pendings: map<Address, seq<nat>>, crypto: Crypto, tx: Transaction)
    requires SentBy(bs, pendings, crypto) && Chained(pendings, |bs|)
    ensures var a := crypto.sender(tx);
      SentBy(bs + [[tx]], pendings[a := Lookup(pendings, a) + [|bs|]], crypto)
  {
    var a, n := crypto.sender(tx), |bs|;
    var p := pendings[a := Lookup(pendings, a) + [n]];
    var r := bs + [[tx]];
    forall x | x in p && x != a ensures n !in p[x] {
      assert InArena(n, pendings[x]);
    }
    forall x, h, t | x in p && h in p[x] && h < |r| && t in r[h] ensures crypto.sender(t) == x {
      if h == n {
        assert t == tx;
      } else {
        if x == a {
          assert h in Lookup(pendings, a);
        }
        assert t in bs[h];
      }
    }
  }

  /** `replacePendingTx` on the chain of `tx`'s sender keeps `SentBy`. */
  lemma ReplaceKeepsSentBy(bs: seq<seq<Transaction>>, pendings: map<Address, seq<nat>>, crypto: Crypto, tx: Transaction)
    requires SentBy(bs, pendings, crypto) && Owned(pendings, |bs|)
    requires InArena(|bs|, Lookup(pendings, crypto.sender(tx)))
    ensures SentBy(ReplacedIn(bs, Lookup(pendings, crypto.sender(tx)), tx), pendings, crypto)
  {
    var from := crypto.sender(tx);
    var chain := Lookup(pendings, from);
    if ReplaceTarget(bs, chain, tx).Some? {
      var h := chain[ReplaceTarget(bs, chain, tx).value];
      var s := bs[h];
      assert multiset(Replaced(s, tx)) <= multiset(s) + multiset{tx} by {
        var i := FirstWhere(s, HasNonce(tx.nonce));
        if i.Some? {
          assert s[i.value] in multiset(s);
        }
      }
      assert ReplacedIn(bs, chain, tx) == bs[h := Replaced(s, tx)];
      SentByGains(bs, pendings, crypto, from, h, Replaced(s, tx), tx);
    }
  }

  /** `replacePendingTx` keeps the invariant. */
  lemma ReplaceKeepsInvariant(txs: seq<nat>, bs: seq<seq<Transaction>>,
                              pendings: map<Address, seq<nat>>, queue: map<Address, seq<Transaction>>,
                              chain: seq<nat>, tx: Transaction)
    requires Invariant(txs, bs, pendings, queue) && InArena(|bs|, chain)
    ensures Invariant(txs, ReplacedIn(bs, chain, tx), pendings, queue)
  {
    ReplacedInKeepsSorted(bs, chain, tx);
  }

  /** Taking the head of a non-empty bucket keeps the invariant. */
  lemma PopKeepsInvariant(txs: seq<nat>, bs: seq<seq<Transaction>>,
                          pendings: map<Address, seq<nat>>, queue: map<Address, seq<Transaction>>,
                          h: nat)
    requires Invariant(txs, bs, pendings, queue) && h < |bs| && bs[h] != []
    ensures Invariant(txs, bs[h := bs[h][1..]], pendings, queue)
  {
    var s := bs[h];
    var r := bs[h := s[1..]];
    forall g | 0 <= g < |r| ensures PriceSorted(r[g]) {
      if g == h {
        forall i, j | 0 <= i < j < |s| - 1 ensures PriceKey(s[1..][i]) >= PriceKey(s[1..][j]) {
          assert s[1..][i] == s[i + 1] && s[1..][j] == s[j + 1];
        }
      } else {
        assert r[g] == bs[g];
      }
    }
  }

  // ----- what `Pop` takes, as values ------------------------------------

  /** The position in the bucket list of the first non-empty bucket. */
  function FirstFilled(s: PoolState): (k: Option<nat>)
    requires InArena(|s.buckets|, s.txs)
    ensures k.None? <==> forall i :: 0 <= i < |s.txs| ==> s.buckets[s.txs[i]] == []
    ensures k.Some? ==>
      && k.value < |s.txs| && s.buckets[s.txs[k.value]] != []
      && forall i :: 0 <= i < k.value ==> s.buckets[s.txs[i]] == []
  {
    var k := FirstWhere(Contents(s.buckets, s.txs), NonEmpty());
    assert forall i :: 0 <= i < |s.txs| ==> (NonEmpty()(Contents(s.buckets, s.txs)[i]) <==> s.buckets[s.txs[i]] != []);
    k
  }

  /** The transaction `Pop` hands out from `s`: the head of the first
      non-empty bucket in list order, if there is one. */
  function Head(s: PoolState): (r: Option<Transaction>)
    requires InArena(|s.buckets|, s.txs)
    ensures r.None? <==> forall i :: 0 <= i < |s.txs| ==> s.buckets[s.txs[i]] == []
    ensures r.Some? ==> r.value == s.buckets[s.txs[FirstFilled(s).value]][0]
  {
    match FirstFilled(s)
    case None => None
    case Some(k) => Some(s.buckets[s.txs[k]][0])
  }

  /** The state `Pop` leaves: that head taken off its bucket, the emptied
      bucket still listed, and nothing else changed. */
  function Popped(s: PoolState): (r: PoolState)
    requires InArena(|s.buckets|, s.txs)
    ensures r.all == s.all && r.txs == s.txs && r.pendings == s.pendings && r.queue == s.queue
    ensures |r.buckets| == |s.buckets|
    ensures Head(s).None? ==> r == s
    ensures Head(s).Some? ==>
      var h := s.txs[FirstFilled(s).value];
      && r.buckets[h] == s.buckets[h][1..]
      && forall g :: 0 <= g < |s.buckets| && g != h ==> r.buckets[g] == s.buckets[g]
  {
    match FirstFilled(s)
    case None => s
    case Some(k) => s.(buckets := s.buckets[s.txs[k] := s.buckets[s.txs[k]][1..]])
  }

  /** Every transaction held in the buckets of an arena, as a multiset. */
  function Pending(bs: seq<seq<Transaction>>): multiset<Transaction> {
    if bs == [] then multiset{} else Pending(bs[..|bs| - 1]) + multiset(bs[|bs| - 1])
  }

  lemma {:induction false} PendingUpdate(bs: seq<seq<Transaction>>, h: nat, b: seq<Transaction>)
    requires h < |bs|
    ensures Pending(bs[h := b]) + multiset(bs[h]) == Pending(bs) + multiset(b)
  {
    var n := |bs| - 1;
    if h == n {
      assert bs[h := b][..n] == bs[..n];
    } else {
      PendingUpdate(bs[..n], h, b);
      var u := bs[h := b];
      assert u[..n] == bs[..n][h := b] && u[n] == bs[n];
      assert Pending(u) == Pending(bs[..n][h := b]) + multiset(bs[n]);
      assert Pending(bs) == Pending(bs[..n]) + multiset(bs[n]);
      assert bs[..n][h] == bs[h];
      calc {
        Pending(u) + multiset(bs[h]);
        Pending(bs[..n][h := b]) + multiset(bs[..n][h]) + multiset(bs[n]);
        Pending(bs[..n]) + multiset(b) + multiset(bs[n]);
        Pending(bs) + multiset(b);
      }
    }
  }

  /** `Pop` takes out of the pool exactly the transaction it hands out, and
      nothing when it hands out nil. */
  lemma PoppedRemovesHead(s: PoolState)
    requires InArena(|s.buckets|, s.txs)
    ensures Head(s).None? ==> Pending(Popped(s).buckets) == Pending(s.buckets)
    ensures Head(s).Some? ==> Pending(Popped(s).buckets) + multiset{Head(s).value} == Pending(s.buckets)
  {
    if FirstFilled(s).Some? {
      var h := s.txs[FirstFilled(s).value];
      var b := s.buckets[h];
      assert Popped(s).buckets == s.buckets[h := b[1..]];
      assert Head(s) == Some(b[0]);
      var rest := Pending(s.buckets[h := b[1..]]);
      PendingUpdate(s.buckets, h, b[1..]);
      assert multiset(b) == multiset{b[0]} + multiset(b[1..]) by {
        assert b == [b[0]] + b[1..];
      }
      assert rest + multiset{b[0]} + multiset(b[1..]) == Pending(s.buckets) + multiset(b[1..]);
      forall t ensures (rest + multiset{b[0]})[t] == Pending(s.buckets)[t] {
        assert (rest + multiset{b[0]} + multiset(b[1..]))[t] == (Pending(s.buckets) + multiset(b[1..]))[t];
      }
    }
  }

  /** `sort.Sort(pool.txs)`: some permutation of the bucket list that is
      ascending by bucket price (the sort is not stable, so no more is
      promised about the order of equally priced buckets). */
  method SortTxs(bs: seq<seq<Transaction>>, hs: seq<nat>) returns (sorted: seq<nat>)
    requires InArena(|bs|, hs)
    ensures multiset(sorted) == multiset(hs) && InArena(|bs|, sorted)
    ensures PricesAscending(Contents(bs, sorted))
  {
    sorted := SortStable(hs, AscendingPrice(bs));
    forall i | 0 <= i < |sorted| ensures sorted[i] < |bs| {
      assert sorted[i] in multiset(hs);
    }
    SortedByAscendingPrice(bs, sorted);
  }

  // ----- the pool --------------------------------------------------------

  /** `replacePendingTx`: scan the sender's chain for the first bucket whose
      tail nonce reaches `tx.Nonce`; replace into it when its price does not
      exceed `tx`'s, and stop either way. Returns the new arena. */
  method ReplacePendingTx(bs: seq<seq<Transaction>>, chain: seq<nat>, tx: Transaction)
    returns (r: seq<seq<Transaction>>)
    requires InArena(|bs|, chain)
    ensures r == ReplacedIn(bs, chain, tx)
  {
    var i := 0;
    while i < |chain|
      invariant 0 <= i <= |chain|
      invariant forall j :: 0 <= j < i ==> BucketNonce(bs[chain[j]]) < tx.nonce
    {
      var h := chain[i];
      if BucketNonce(bs[h]) >= tx.nonce {
        ReplaceTargetAt(bs, chain, tx, i);
        if BucketPrice(bs[h]) <= tx.gasPrice {
          return bs[h := Replaced(bs[h], tx)];
        }
        return bs;
      }
      i := i + 1;
    }
    ReplaceTargetAt(bs, chain, tx, |chain|);
    return bs;
  }

  /** The mutable fields of `DefaultPool`: the hashes seen (`all`), the
      bucket arena, the bucket list (`txs`), the per-address chains
      (`pendings`) and the per-address queues. */
  datatype PoolState = PoolState(
    all: set<Hash>,
    buckets: seq<seq<Transaction>>,
    txs: seq<nat>,
    pendings: map<Address, seq<nat>>,
    queue: map<Address, seq<Transaction>>)

  /** The queue branch of `NewTx`: only `from`'s queue changes, gaining
      `tx` in nonce order; the bucket list is only permuted. */
  ghost predicate Enqueued(s0: PoolState, s: PoolState, from: Address, tx: Transaction) {
    && s.queue == s0.queue[from := SortStable(Lookup(s0.queue, from) + [tx], NonceKey)]
    && s.buckets == s0.buckets && s.pendings == s0.pendings
    && multiset(s.txs) == multiset(s0.txs)
  }

  /** The push branch of `NewTx`: a new bucket `[tx]` under the next
      handle, appended to `from`'s chain and to the bucket list, when
      `Opens`; otherwise `tx` pushed into `from`'s last bucket. */
  ghost predicate PushedPending(s0: PoolState, s: PoolState, from: Address, tx: Transaction)
    requires InArena(|s0.buckets|, Lookup(s0.pendings, from))
  {
    var chain := Lookup(s0.pendings, from);
    && s.queue == s0.queue
    && if Opens(s0.buckets, chain, tx) then
         && s.buckets == s0.buckets + [[tx]]
         && s.pendings == s0.pendings[from := chain + [|s0.buckets|]]
         && multiset(s.txs) == multiset(s0.txs) + multiset{|s0.buckets| as nat}
       else
         && s.buckets == Pushed(s0.buckets, chain[|chain| - 1], tx)
         && s.pendings == s0.pendings
         && multiset(s.txs) == multiset(s0.txs)
  }

  /** The replace branch of `NewTx`: the arena becomes `ReplacedIn` for
      `from`'s chain; chains and queues stay, the list is only permuted. */
  ghost predicate ReplacedPending(s0: PoolState, s: PoolState, from: Address, tx: Transaction)
    requires InArena(|s0.buckets|, Lookup(s0.pendings, from))
  {
    && s.buckets == ReplacedIn(s0.buckets, Lookup(s0.pendings, from), tx)
    && s.pendings == s0.pendings && s.queue == s0.queue
    && multiset(s.txs) == multiset(s0.txs)
  }

  /** `DefaultPool`. The buckets live in an arena (`buckets`, indexed by
      handle); the bucket list `txs` and the per-address chains `pendings`
      hold handles, so a bucket reached through either is the same bucket,
      as with the shared `*DefaultSortedTxs` pointers. The committed state
      store is read, never written, to find a sender's committed nonce. */
  class Pool {
    const stat: StateDB
    const crypto: Crypto
    var st: PoolState

    /** The pool's invariant. */
    ghost predicate Valid()
      reads this
    {
      Invariant(st.txs, st.buckets, st.pendings, st.queue) && SentBy(st.buckets, st.pendings, crypto)
    }

    constructor (stat: StateDB, crypto: Crypto)
      ensures Valid()
      ensures this.stat == stat && this.crypto == crypto
      ensures st.all == {} && st.buckets == [] && st.txs == [] && st.pendings == map[] && st.queue == map[]
    {
      this.stat := stat;
      this.crypto := crypto;
      st := PoolState({}, [], [], map[], map[]);
    }

    /** The contents of the bucket list, in list order. */
    ghost function Listing(): (r: seq<seq<Transaction>>)
      reads this
      requires Valid()
      ensures |r| == |st.txs| && forall i :: 0 <= i < |st.txs| ==> r[i] == st.buckets[st.txs[i]]
    {
      Contents(st.buckets, st.txs)
    }

    /** The tail nonce of the address's last bucket, if it has any buckets. */
    ghost function Tail(a: Address): Option<u64>
      reads this
      requires Valid()
    {
      var c := Lookup(st.pendings, a);
      if |c| > 0 then Some(BucketNonce(st.buckets[c[|c| - 1]])) else None
    }

    /** The branch `NewTx` takes for `tx`. */
    ghost function RouteOf(tx: Transaction): Route
      reads this, stat
      requires Valid()
    {
      var from := crypto.sender(tx);
      Classify(stat.Load(from), Tail(from), tx.nonce)
    }

    /** `NewTx`: drop, queue, push or replace, then record the hash and
        re-sort the bucket list. The ghost result names the branch taken. */
    method NewTx(tx: Transaction) returns (ghost route: Route)
      requires Valid()
      modifies this`st
      ensures route == old(RouteOf(tx))
      ensures Valid()
      ensures route == Drop ==> st == old(st)
      ensures route != Drop ==>
        && st.all == old(st.all) + {crypto.txHash(tx)}
        && PricesAscending(Listing())
      ensures route == Enqueue ==> Enqueued(old(st), st, crypto.sender(tx), tx)
      ensures route == PushPending ==> PushedPending(old(st), st, crypto.sender(tx), tx)
      ensures route == ReplacePending ==> ReplacedPending(old(st), st, crypto.sender(tx), tx)
    {
      var from := crypto.sender(tx);
      route := RouteOf(tx);
      var account := stat.Load(from);
      if account.None? || account.value.nonce >= tx.nonce {
        assert route == Drop;
      } else {
        var blks := Lookup(st.pendings, from);
        var nonce := if |blks| > 0 then BucketNonce(st.buckets[blks[|blks| - 1]]) else account.value.nonce;
        assert Tail(from) == if |blks| > 0 then Some(nonce) else None;
        var next := Inc64(nonce);
        if tx.nonce > next {
          assert route == Enqueue;
          AdmitQueued(tx);
        } else if tx.nonce == next {
          assert route == PushPending;
          AdmitPushed(blks, tx);
        } else {
          assert route == ReplacePending;
          AdmitReplacing(blks, tx);
        }
      }
    }

    /** The queue branch of `NewTx`: `addQueueTx`, then the common tail. */
    method AdmitQueued(tx: Transaction)
      requires Valid()
      modifies this`st
      ensures Valid() && st.all == old(st.all) + {crypto.txHash(tx)} && PricesAscending(Listing())
      ensures Enqueued(old(st), st, crypto.sender(tx), tx)
    {
      var q := AddQueueTx(tx);
      Admit(tx, st.buckets, st.pendings, st.txs, q);
    }

    /** The push branch of `NewTx` (the nonce is the next one after the
        sender's tail): `pushPendingTx`, then the common tail. */
    method AdmitPushed(blks: seq<nat>, tx: Transaction)
      requires Valid() && blks == Lookup(st.pendings, crypto.sender(tx))
      modifies this`st
      ensures Valid() && st.all == old(st.all) + {crypto.txHash(tx)} && PricesAscending(Listing())
      ensures PushedPending(old(st), st, crypto.sender(tx), tx)
    {
      var bs, ps, hs := PushPendingTx(blks, tx);
      Admit(tx, bs, ps, hs, st.queue);
    }

    /** The replace branch of `NewTx` (the nonce is at or below the sender's
        tail): `replacePendingTx`, then the common tail. */
    method AdmitReplacing(blks: seq<nat>, tx: Transaction)
      requires Valid() && blks == Lookup(st.pendings, crypto.sender(tx))
      modifies this`st
      ensures Valid() && st.all == old(st.all) + {crypto.txHash(tx)} && PricesAscending(Listing())
      ensures ReplacedPending(old(st), st, crypto.sender(tx), tx)
    {
      assert InArena(|st.buckets|, blks);
      ReplaceKeepsInvariant(st.txs, st.buckets, st.pendings, st.queue, blks, tx);
      ReplaceKeepsSentBy(st.buckets, st.pendings, crypto, tx);
      var bs := ReplacePendingTx(st.buckets, blks, tx);
      Admit(tx, bs, st.pendings, st.txs, st.queue);
    }

    /** The tail of `NewTx`: record the hash, re-sort the bucket list by
        ascending price, and install the new state. */
    method Admit(tx: Transaction, bs: seq<seq<Transaction>>, ps: map<Address, seq<nat>>,
                 hs: seq<nat>, q: map<Address, seq<Transaction>>)
      requires Invariant(hs, bs, ps, q) && SentBy(bs, ps, crypto)
      modifies this`st
      ensures Valid()
      ensures st.all == old(st.all) + {crypto.txHash(tx)}
      ensures st.buckets == bs && st.pendings == ps && st.queue == q
      ensures multiset(st.txs) == multiset(hs) && PricesAscending(Listing())
    {
      var sorted := SortTxs(bs, hs);
      ResortKeepsInvariant(hs, sorted, bs, ps, q);
      st := PoolState(st.all + {crypto.txHash(tx)}, bs, sorted, ps, q);
    }

    /** `addQueueTx`: the address's queue with `tx` appended, stable-sorted
        by ascending nonce. */
    method AddQueueTx(tx: Transaction) returns (q: map<Address, seq<Transaction>>)
      requires Valid()
      ensures var from := crypto.sender(tx);
        && q == st.queue[from := SortStable(Lookup(st.queue, from) + [tx], NonceKey)]
        && NonceAscending(q[from])
        && multiset(q[from]) == multiset(Lookup(st.queue, from)) + multiset{tx}
      ensures Invariant(st.txs, st.buckets, st.pendings, q)
    {
      var from := crypto.sender(tx);
      var list := Lookup(st.queue, from) + [tx];
      var sorted := SortStable(list, NonceKey);
      EnqueueKeepsInvariant(st.txs, st.buckets, st.pendings, st.queue, from, tx);
      NonceSortAscends(list);
      q := st.queue[from := sorted];
    }

    /** `pushPendingTx`: a new bucket when `Opens`, otherwise a push into
        the sender's last bucket. Returns the new arena, chains and bucket
        list. */
    method PushPendingTx(blks: seq<nat>, tx: Transaction)
      returns (bs: seq<seq<Transaction>>, ps: map<Address, seq<nat>>, hs: seq<nat>)
      requires Valid() && blks == Lookup(st.pendings, crypto.sender(tx))
      ensures Invariant(hs, bs, ps, st.queue) && SentBy(bs, ps, crypto)
      ensures Opens(st.buckets, blks, tx) ==>
        && bs == st.buckets + [[tx]]
        && ps == st.pendings[crypto.sender(tx) := blks + [|st.buckets|]]
        && multiset(hs) == multiset(st.txs) + multiset{|st.buckets| as nat}
      ensures !Opens(st.buckets, blks, tx) ==>
        && var last := blks[|blks| - 1];
        && bs == Pushed(st.buckets, last, tx)
        && ps == st.pendings && hs == st.txs
    {
      if |blks| == 0 {
        bs, ps, hs := OpenBucket(blks, tx);
      } else {
        var last := blks[|blks| - 1];
        if BucketPrice(st.buckets[last]) <= tx.gasPrice {
          PushKeepsInvariant(st.txs, st.buckets, st.pendings, st.queue, last, tx);
          assert multiset(SortStable(st.buckets[last] + [tx], PriceKey)) == multiset(st.buckets[last]) + multiset{tx};
          SentByGains(st.buckets, st.pendings, crypto, crypto.sender(tx), last,
                      SortStable(st.buckets[last] + [tx], PriceKey), tx);
          bs, ps, hs := Pushed(st.buckets, last, tx), st.pendings, st.txs;
        } else {
          bs, ps, hs := OpenBucket(blks, tx);
        }
      }
    }

    /** A new bucket holding only `tx`, under the next free handle, appended
        to the sender's chain and to the bucket list, which is then
        re-sorted. */
    method OpenBucket(blks: seq<nat>, tx: Transaction)
      returns (bs: seq<seq<Transaction>>, ps: map<Address, seq<nat>>, hs: seq<nat>)
      requires Valid() && blks == Lookup(st.pendings, crypto.sender(tx))
      ensures Invariant(hs, bs, ps, st.queue) && SentBy(bs, ps, crypto)
      ensures bs == st.buckets + [[tx]]
      ensures ps == st.pendings[crypto.sender(tx) := blks + [|st.buckets|]]
      ensures multiset(hs) == multiset(st.txs) + multiset{|st.buckets| as nat}
      ensures InArena(|bs|, hs) && PricesAscending(Contents(bs, hs))
    {
      var from := crypto.sender(tx);
      var h := |st.buckets|;
      OpenKeepsInvariant(st.txs, st.buckets, st.pendings, st.queue, from, tx);
      OpenKeepsSentBy(st.buckets, st.pendings, crypto, tx);
      bs := st.buckets + [[tx]];
      ps := st.pendings[from := blks + [h]];
      hs := SortTxs(bs, st.txs + [h]);
      ResortKeepsInvariant(st.txs + [h], hs, bs, ps, st.queue);
    }

    /** `Pop`: the head of the first non-empty bucket in list order; the
        emptied bucket stays in the list. */
    method Pop() returns (r: Option<Transaction>)
      requires Valid()
      modifies this`st
      ensures Valid()
      ensures r == Head(old(st)) && st == Popped(old(st))
    {
      var i := 0;
      while i < |st.txs|
        invariant 0 <= i <= |st.txs|
        invariant st == old(st)
        invariant forall j :: 0 <= j < i ==> st.buckets[st.txs[j]] == []
      {
        var h := st.txs[i];
        if st.buckets[h] != [] {
          assert FirstFilled(st) == Some(i);
          PopKeepsInvariant(st.txs, st.buckets, st.pendings, st.queue, h);
          SentByUpdate(st.buckets, st.pendings, crypto, h, st.buckets[h][1..]);
          r := Some(st.buckets[h][0]);
          st := st.(buckets := st.buckets[h := st.buckets[h][1..]]);
          return;
        }
        i := i + 1;
      }
      r := None;
    }
  }
}
