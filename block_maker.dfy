/** The block maker: opens a candidate block, packs transactions from the
    pool into it by executing them, and seals it with a proof-of-work nonce
    search. */
module Maker {
  import opened Types
  import opened StatDb
  import StateMachine
  import TxPool

  // ----- proof of work ----------------------------------------------------

  /** The number of leading zero bits of a byte: 8 for zero, otherwise 8
      less the position of its highest set bit. */
  function ByteLeadingZeros(b: byte): (n: nat)
    ensures n <= 8 && (n == 8 <==> b == 0)
  {
    if b == 0 then 8
    else if b < 0x02 then 7
    else if b < 0x04 then 6
    else if b < 0x08 then 5
    else if b < 0x10 then 4
    else if b < 0x20 then 3
    else if b < 0x40 then 2
    else if b < 0x80 then 1
    else 0
  }

  /** The number of leading zero bits of `h`, read as one big-endian
      string of `8 * |h|` bits. */
  function LeadingZeros(h: seq<byte>): (n: nat)
    ensures n <= 8 * |h|
  {
    if h == [] then 0
    else if h[0] == 0 then 8 + LeadingZeros(h[1..])
    else ByteLeadingZeros(h[0])
  }

  ghost predicate AllZero(h: seq<byte>) {
    forall i :: 0 <= i < |h| ==> h[i] == 0
  }

  /** What `validHash(h, difficulty)` yields: whether `h` starts with at
      least `difficulty` zero bits; `None` when the check indexes past the
      end of `h`, which happens exactly when the difficulty exceeds the
      hash's width and every byte is zero (a non-zero byte ends the scan
      first). */
  ghost function Verdict(h: seq<byte>, difficulty: nat): Option<bool> {
    if difficulty > 8 * |h| then
      if AllZero(h) then None else Some(false)
    else
      Some(LeadingZeros(h) >= difficulty)
  }

  /** `byte(0xff << (8 - r))`: the top `r` bits of a byte. */
  function Mask(r: nat): byte
    requires 1 <= r <= 7
  {
    (0xff as byte) << (8 - r)
  }

  /** `validHash`: the first `difficulty / 8` bytes must be zero and, when
      `difficulty % 8 > 0`, so must the top `difficulty % 8` bits of the next
      byte. `None` stands for Go's index-out-of-range panic. */
  method ValidHash(h: seq<byte>, difficulty: u64) returns (r: Option<bool>)
    ensures r == Verdict(h, difficulty)
  {
    var leadingZeros := difficulty / 8;
    var remainingBits := difficulty % 8;
    var i := 0;
    while i < leadingZeros
      invariant 0 <= i <= leadingZeros && i <= |h|
      invariant forall j :: 0 <= j < i ==> h[j] == 0
    {
      if i == |h| {
        assert AllZero(h);
        return None;
      }
      if h[i] != 0 {
        NonZeroByteFails(h, difficulty, i);
        return Some(false);
      }
      i := i + 1;
    }
    if remainingBits > 0 {
      if leadingZeros == |h| {
        assert AllZero(h);
        return None;
      }
      if h[leadingZeros] & Mask(remainingBits) != 0 {
        ZeroBitsByBytes(h, difficulty);
        return Some(false);
      }
    }
    ZeroBitsByBytes(h, difficulty);
    return Some(true);
  }

  /** The leading-zero-bits test read byte by byte: for a difficulty within
      the hash's width, the hash passes exactly when its first
      `difficulty / 8` bytes are zero and, when `difficulty % 8 > 0`, the
      next byte under the mask is zero. */
  lemma ZeroBitsByBytes(h: seq<byte>, difficulty: nat)
    requires difficulty <= 8 * |h|
    ensures Verdict(h, difficulty) == Some(
      && (forall i :: 0 <= i < difficulty / 8 ==> h[i] == 0)
      && (difficulty % 8 > 0 ==> h[difficulty / 8] & Mask(difficulty % 8) == 0))
  {
    LeadingZeroBits(h, difficulty / 8, difficulty % 8);
  }

  /** `h` has at least `8 * k + r` leading zero bits exactly when its first
      `k` bytes are zero and the top `r` bits of the next one are. */
  lemma {:induction false} LeadingZeroBits(h: seq<byte>, k: nat, r: nat)
    requires r < 8 && 8 * k + r <= 8 * |h|
    ensures LeadingZeros(h) >= 8 * k + r <==>
      && (forall i :: 0 <= i < k ==> h[i] == 0)
      && (r > 0 ==> h[k] & Mask(r) == 0)
  {
    if k > 0 {
      var t := h[1..];
      LeadingZeroBits(t, k - 1, r);
      if h[0] == 0 {
        forall i | 0 <= i < k - 1 ensures t[i] == h[i + 1] {}
        if forall i :: 0 <= i < k - 1 ==> t[i] == 0 {
          forall i | 0 <= i < k ensures h[i] == 0 {
            if i > 0 { assert h[i] == t[i - 1]; }
          }
        }
        assert r > 0 ==> t[k - 1] == h[k];
      }
    } else if r > 0 && h[0] != 0 {
      MaskedByte(h[0], r);
    }
  }

  /** A non-zero byte among the first `difficulty / 8` fails the check,
      whether or not the difficulty fits the hash. */
  lemma NonZeroByteFails(h: seq<byte>, difficulty: nat, i: nat)
    requires i < difficulty / 8 && i < |h| && h[i] != 0
    ensures Verdict(h, difficulty) == Some(false)
  {
    if difficulty <= 8 * |h| {
      ZeroBitsByBytes(h, difficulty);
    }
  }

  /** Under the mask of its top `r` bits a byte is zero exactly when it has
      at least `r` leading zero bits. */
  lemma MaskedByte(b: byte, r: nat)
    requires 1 <= r <= 7
    ensures (b & Mask(r) == 0) <==> ByteLeadingZeros(b) >= r
  {
    MaskValues();
    assert r == 1 || r == 2 || r == 3 || r == 4 || r == 5 || r == 6 || r == 7;
  }

  lemma MaskValues()
    ensures Mask(1) == 0x80 && Mask(2) == 0xc0 && Mask(3) == 0xe0 && Mask(4) == 0xf0
    ensures Mask(5) == 0xf8 && Mask(6) == 0xfc && Mask(7) == 0xfe
  {
  }

  /** A difficulty met is also met by every smaller difficulty. */
  lemma EasierDifficulty(h: seq<byte>, d: nat, e: nat)
    requires e <= d && Verdict(h, d) == Some(true)
    ensures Verdict(h, e) == Some(true)
  {
  }

  /** Difficulty zero accepts every hash. */
  lemma ZeroDifficultyAcceptsAll(h: Hash)
    ensures Verdict(h, 0) == Some(true)
  {
  }

  /** Difficulty eight accepts exactly the hashes whose first byte is zero. */
  lemma EightBitsIsFirstByte(h: Hash)
    ensures Verdict(h, 8) == Some(h[0] == 0)
  {
    ZeroBitsByBytes(h, 8);
  }

  /** Difficulty four looks at the top half of the first byte only: a first
      byte 0x0F passes, 0x10 fails. */
  lemma FourBitsBoundary(h: Hash)
    ensures h[0] == 0x0f ==> Verdict(h, 4) == Some(true)
    ensures h[0] == 0x10 ==> Verdict(h, 4) == Some(false)
  {
    ZeroBitsByBytes(h, 4);
    assert Mask(4) == 0xf0;
  }

  /** A difficulty beyond the hash's 256 bits is never met; the check
      panics on the all-zero hash. */
  lemma TooHardNeverPasses(h: Hash, d: nat)
    requires d > 256
    ensures Verdict(h, d) != Some(true)
    ensures Verdict(h, d).None? <==> forall i :: 0 <= i < 32 ==> h[i] == 0
  {
  }

  // ----- the block maker --------------------------------------------------

  /** The header fields the maker writes. The remaining fields of the
      chain's header stay at their zero values throughout. */
  datatype Header = Header(parentHash: Hash, coinbase: Address, timestamp: u64, nonce: u64)

  /** A block body: the packed transactions and their receipts. */
  datatype Body = Body(transactions: seq<Transaction>, receipts: seq<Receipt>)

  /** `ChainConfig`: the packing duration, the miner's address and the
      proof-of-work difficulty in leading zero bits. */
  datatype ChainConfig = ChainConfig(duration: nat, coinbase: Address, difficulty: u64)

  /** Receipt `i` is the receipt of transaction `i`. */
  ghost predicate Aligned(b: Body, crypto: Crypto) {
    && |b.transactions| == |b.receipts|
    && forall i :: 0 <= i < |b.receipts| ==> b.receipts[i].txHash == crypto.txHash(b.transactions[i])
  }

  /** What packing works on: the pool's state, the account store and the
      open body, as values. */
  datatype Packing = Packing(pool: TxPool.PoolState, accounts: map<Address, Account>, body: Body)

  /** One `pack` step: take the pool's head, if any, execute it as
      `Transfer` and append it and its receipt to the body. */
  function PackStep(p: Packing, crypto: Crypto): (r: Packing)
    requires TxPool.InArena(|p.pool.buckets|, p.pool.txs)
    ensures TxPool.InArena(|r.pool.buckets|, r.pool.txs)
  {
    match TxPool.Head(p.pool)
    case None => p
    case Some(tx) =>
      var o := StateMachine.Transfer(p.accounts, tx, crypto);
      Packing(TxPool.Popped(p.pool), o.accounts,
              Body(p.body.transactions + [tx], p.body.receipts + [o.receipt]))
  }

  /** `fuel` successive `pack` steps. */
  function PackSteps(fuel: nat, p: Packing, crypto: Crypto): (r: Packing)
    requires TxPool.InArena(|p.pool.buckets|, p.pool.txs)
    ensures TxPool.InArena(|r.pool.buckets|, r.pool.txs)
  {
    if fuel == 0 then p else PackSteps(fuel - 1, PackStep(p, crypto), crypto)
  }

  /** Packing only appends to the body, at most one transaction per step,
      always with its receipt. */
  lemma {:induction false} PackStepsGrows(fuel: nat, p: Packing, crypto: Crypto)
    requires TxPool.InArena(|p.pool.buckets|, p.pool.txs)
    ensures var r := PackSteps(fuel, p, crypto);
      && p.body.transactions <= r.body.transactions
      && p.body.receipts <= r.body.receipts
      && |r.body.transactions| - |p.body.transactions| == |r.body.receipts| - |p.body.receipts|
      && |r.body.transactions| <= |p.body.transactions| + fuel
      && (Aligned(p.body, crypto) ==> Aligned(r.body, crypto))
  {
    if fuel > 0 {
      PackStepGrows(p, crypto);
      PackStepsGrows(fuel - 1, PackStep(p, crypto), crypto);
    }
  }

  /** One `pack` step appends at most one transaction, with its receipt. */
  lemma PackStepGrows(p: Packing, crypto: Crypto)
    requires TxPool.InArena(|p.pool.buckets|, p.pool.txs)
    ensures var r := PackStep(p, crypto);
      && p.body.transactions <= r.body.transactions
      && p.body.receipts <= r.body.receipts
      && |r.body.transactions| - |p.body.transactions| == |r.body.receipts| - |p.body.receipts|
      && |r.body.transactions| <= |p.body.transactions| + 1
      && (Aligned(p.body, crypto) ==> Aligned(r.body, crypto))
  {
  }

  /** Packing moves transactions out of the pool into the body: none is
      lost, none is packed twice. */
  lemma {:induction false} PackStepsMoves(fuel: nat, p: Packing, crypto: Crypto)
    requires TxPool.InArena(|p.pool.buckets|, p.pool.txs)
    ensures var r := PackSteps(fuel, p, crypto);
      TxPool.Pending(r.pool.buckets) + multiset(r.body.transactions)
        == TxPool.Pending(p.pool.buckets) + multiset(p.body.transactions)
  {
    if fuel > 0 {
      PackStepMoves(p, crypto);
      PackStepsMoves(fuel - 1, PackStep(p, crypto), crypto);
    }
  }

  /** One `pack` step moves the pool's head, if any, into the body. */
  lemma PackStepMoves(p: Packing, crypto: Crypto)
    requires TxPool.InArena(|p.pool.buckets|, p.pool.txs)
    ensures var r := PackStep(p, crypto);
      TxPool.Pending(r.pool.buckets) + multiset(r.body.transactions)
        == TxPool.Pending(p.pool.buckets) + multiset(p.body.transactions)
  {
    TxPool.PoppedRemovesHead(p.pool);
  }

  /** With an empty pool, packing changes nothing. */
  lemma {:induction false} PackStepsIdle(fuel: nat, p: Packing, crypto: Crypto)
    requires TxPool.InArena(|p.pool.buckets|, p.pool.txs)
    requires TxPool.Head(p.pool).None?
    ensures PackSteps(fuel, p, crypto) == p
  {
    if fuel > 0 {
      PackStepsIdle(fuel - 1, p, crypto);
    }
  }

  /** `BlockMaker`. The pool and the state store are shared objects; the
      chain head and the header hash function come from the header chain,
      which is not part of this model. */
  class BlockMaker {
    const pool: TxPool.Pool
    const state: StateDB
    const config: ChainConfig
    const chainHead: Header
    const headerHash: Header -> Hash
    var nextHeader: Option<Header>
    var nextBody: Option<Body>

    /** `NewBlockMaker`: no block is open yet. */
    constructor (pool: TxPool.Pool, state: StateDB, chainHead: Header,
                 headerHash: Header -> Hash, config: ChainConfig)
      ensures this.pool == pool && this.state == state && this.config == config
      ensures this.chainHead == chainHead && this.headerHash == headerHash
      ensures nextHeader.None? && nextBody.None?
    {
      this.pool := pool;
      this.state := state;
      this.config := config;
      this.chainHead := chainHead;
      this.headerHash := headerHash;
      nextHeader := None;
      nextBody := None;
    }

    /** The open body, if any, pairs every transaction with its receipt. */
    ghost predicate Consistent()
      reads this
    {
      nextBody.Some? ==> Aligned(nextBody.value, pool.crypto)
    }

    /** `h` meets the configured proof-of-work difficulty. */
    ghost predicate Sealed(h: Header) {
      Verdict(headerHash(h), config.difficulty) == Some(true)
    }

    /** `NewBlock`: an empty body and a header naming the chain head as
        parent and the configured miner as coinbase. */
    method NewBlock()
      modifies this`nextHeader, this`nextBody
      ensures nextBody == Some(Body([], []))
      ensures nextHeader == Some(Header(headerHash(chainHead), config.coinbase, 0, 0))
      ensures Consistent()
    {
      nextBody := Some(Body([], []));
      nextHeader := Some(Header(headerHash(chainHead), config.coinbase, 0, 0));
    }

    /** `pack`: pop one transaction from the pool; when there is one,
        execute it against the state store and append it and its receipt to
        the body. */
    method PackOne()
      requires pool.Valid() && nextBody.Some?
      modifies this`nextBody, pool`st, state
      ensures pool.Valid() && nextBody.Some?
      ensures Packing(pool.st, state.accounts, nextBody.value)
           == PackStep(Packing(old(pool.st), old(state.accounts), old(nextBody.value)), pool.crypto)
      ensures pool.st == TxPool.Popped(old(pool.st))
      ensures old(Consistent()) ==> Consistent()
    {
      var tx := pool.Pop();
      if tx.None? {
        return;
      }
      var receipt := StateMachine.Execute1(state, tx.value, pool.crypto);
      var body := nextBody.value;
      nextBody := Some(Body(body.transactions + [tx.value], body.receipts + [receipt]));
    }

    /** `Pack`, with the deadline and the interrupt replaced by a bound on
        the number of `pack` steps: the pool, the store and the body end as
        `fuel` steps of `pack` leave them. */
    method Pack(fuel: nat)
      requires pool.Valid() && nextBody.Some?
      modifies this`nextBody, pool`st, state
      ensures pool.Valid() && nextBody.Some?
      ensures Packing(pool.st, state.accounts, nextBody.value)
           == PackSteps(fuel, Packing(old(pool.st), old(state.accounts), old(nextBody.value)), pool.crypto)
      ensures old(nextBody).value.transactions <= nextBody.value.transactions
      ensures old(nextBody).value.receipts <= nextBody.value.receipts
      ensures |nextBody.value.transactions| <= |old(nextBody).value.transactions| + fuel
      ensures old(Consistent()) ==> Consistent()
    {
      ghost var start := Packing(pool.st, state.accounts, nextBody.value);
      var k := 0;
      while k < fuel
        invariant 0 <= k <= fuel
        invariant pool.Valid() && nextBody.Some?
        invariant PackSteps(fuel - k, Packing(pool.st, state.accounts, nextBody.value), pool.crypto)
               == PackSteps(fuel, start, pool.crypto)
      {
        ghost var before := Packing(pool.st, state.accounts, nextBody.value);
        PackOne();
        assert PackSteps(fuel - k, before, pool.crypto)
            == PackSteps(fuel - k - 1, PackStep(before, pool.crypto), pool.crypto);
        k := k + 1;
      }
      PackStepsGrows(fuel, start, pool.crypto);
    }

    /** `Finalize`: stamp the header with `now`, then try nonces 0, 1, 2, ...
        until the header's hash meets the difficulty. The search ends only
        if some nonce works; `bound` is one that does. The result is the
        least such nonce, and the body is left as it is. */
    method Finalize(now: u64, ghost bound: u64) returns (header: Header, body: Body)
      requires nextHeader.Some? && nextBody.Some?
      requires Sealed(nextHeader.value.(timestamp := now, nonce := bound))
      modifies this`nextHeader
      ensures nextBody == old(nextBody) && body == nextBody.value
      ensures nextHeader == Some(header)
      ensures header == old(nextHeader).value.(timestamp := now, nonce := header.nonce)
      ensures Sealed(header)
      ensures forall n: u64 :: n < header.nonce ==> !Sealed(header.(nonce := n))
    {
      var stamped := nextHeader.value.(timestamp := now, nonce := 0);
      nextHeader := Some(stamped);
      var n: u64 := 0;
      while true
        invariant n <= bound
        invariant nextHeader == Some(stamped.(nonce := n))
        invariant forall m: u64 :: m < n ==> !Sealed(stamped.(nonce := m))
        decreases bound - n
      {
        var ok := ValidHash(headerHash(nextHeader.value), config.difficulty);
        assert ok.Some?;
        if ok.value {
          break;
        }
        n := n + 1;
        nextHeader := Some(stamped.(nonce := n));
      }
      header, body := nextHeader.value, nextBody.value;
    }
  }
}
