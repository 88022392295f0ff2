/** Concrete pools in which an executable transaction stays queued. */
module PoolCases {
  import opened Transactions
  import opened TxLists
  import opened PoolStructure
  import opened PoolTurns
  import opened PoolResets
  import opened PoolNonces
  import opened Lookups
  import opened TxBooks
  import opened PricedLists
  import opened TxPools
  import opened PoolBatches

  const A: Address := 1
  const B: Address := 2
  const GAS_LIMIT: nat := 30000000

  function Sample(from: Address, nonce: nat, price: nat, size: Size): Tx {
    Tx(Legacy, true, from, nonce, 21000, price, price, 0, 0, size, 21000, 0)
  }

  /** A state in which A has sent so many transactions. */
  function Sent(n: nat): ChainState { ChainState((a: Address) => if a == A then n else 0, (a: Address) => 0) }

  /** A pool on such a state with these transactions and these lists of A. */
  ghost predicate Holding(pool: TxPool, sent: nat, p: Items, q: Items, pn: nat, txs: set<Tx>)
    reads pool, pool.book, pool.book.all, pool.book.priced, pool.pendingNonces
  {
    && pool.Inv() && pool.currentState == Sent(sent) && pool.currentMaxGas == GAS_LIMIT && pool.gasPrice == 1
    && pool.locals == {} && At(pool.pending, A) == p && At(pool.queue, A) == q && pool.PN(A) == pn
    && pool.book.txs == txs
  }

  /** Send a transaction of A whose nonce is free to a pool that has room for it. */
  method Send(pool: TxPool, tx: Tx, ghost sent: nat, ghost p: Items, ghost q: Items, ghost pn: nat, ghost txs: set<Tx>)
    requires Holding(pool, sent, p, q, pn, txs) && tx == Sample(A, tx.nonce, tx.feeCap, tx.size) && tx !in txs
    requires sent <= tx.nonce && tx.nonce !in p && tx.nonce !in q && 1 <= tx.feeCap < MAX_256 && tx.size <= TX_MAX_SIZE
    requires pool.HasRoom(NumSlots(tx))
    modifies pool, pool.book, pool.book.all, pool.book.priced, pool.pendingNonces
    ensures Holding(pool, sent, p, q[tx.nonce := tx], pn, txs + {tx}) && pool.pendingNonces == old(pool.pendingNonces)
    ensures pool.book.all.remotes == old(pool.book.all.remotes) + {tx}
  {
    hide Agree, TxBook.Valid, TxPool.RestsAt, TxPool.ResetsAt, TxPool.AheadAt, TxPool.PN, At, CalmAt, Shed;
    assert pool.Holder(tx) == None;
    assert pool.Validate(tx, false).None?;
    var r := pool.Add(tx, false);
    assert r == Ok(false) && pool.Placed(tx);
  }

  lemma OneSlots(tx: Tx)
    ensures SlotsOf({}) == 0 && SlotsOf({tx}) == NumSlots(tx)
  {
    SlotsWith({}, tx);
    assert {} + {tx} == {tx};
  }

  lemma AllUsable(q: Items, s: nat, balance: int, maxGas: nat)
    requires Fresh(q, s) && Paid(q, s, balance, maxGas)
    ensures UsableOf(q, s, balance, maxGas) == q && AtLeast(q, s) == q && Dropped(q, balance, maxGas) == map[]
  {
    assert AtLeast(q, s) == q;
    assert Dropped(q, balance, maxGas) == map[];
  }

  lemma OneReady(tx: Tx, one: Items)
    requires one == map[0 := tx]
    ensures Readies(one, 0) == one && RunEnd(one, 0) == 1 && one - one.Keys == map[]
  {
    RunEndUnique(one, 0, 1);
    ReadyAtState(one, 0, 0);
    forall n
      ensures n in Readies(one, 0) <==> n in one
    {
    }
  }

  /** Promoting the first transaction of an account that has none pending. */
  lemma FirstPromoted(tx: Tx, m: Items, q: Items, pn: nat)
    requires tx == Sample(A, 0, tx.feeCap, tx.size)
    requires Promoted(map[], m, map[0 := tx], q, 0, 0, pn, 0, GAS_LIMIT, false, 64)
    ensures m == map[0 := tx] && q == map[] && pn == 1
  {
    hide UsableOf, Readies, RunEnd;
    var one: Items := map[0 := tx];
    AllUsable(one, 0, 0, GAS_LIMIT);
    OneReady(tx, one);
  }

  /** A new pool to which A sends a first transaction, which becomes pending. */
  method FirstPending(globalSlots: nat, globalQueue: nat, size: Size) returns (pool: TxPool, tx: Tx)
    requires 1 <= globalSlots && 1 <= globalQueue && size <= TX_MAX_SIZE
    requires NumSlots(Sample(A, 0, 1, size)) <= globalSlots + globalQueue
    ensures tx == Sample(A, 0, 1, size) && Holding(pool, 0, map[0 := tx], map[], 1, {tx})
    ensures pool.config == Config(1, 10, 16, globalSlots, 64, globalQueue) && pool.book.all.remotes == {tx}
    ensures fresh(pool) && fresh(pool.book) && fresh(pool.book.all) && fresh(pool.book.priced)
            && fresh(pool.pendingNonces)
  {
    hide Agree, TxBook.Valid, TxPool.RestsAt, TxPool.ResetsAt, TxPool.AheadAt, TxPool.PN, Promoted, Total, Left;
    hide CutDown, TxPool.Followed, Advanced;
    tx := Sample(A, 0, 1, size);
    pool := new TxPool(Config(1, 10, 16, globalSlots, 64, globalQueue), Sent(0), GAS_LIMIT, {}, false, false);
    pool.book.Accounts();
    OneSlots(tx);
    Send(pool, tx, 0, map[], map[], 0, {});
    var mid, served := pool.Reorg(None, {A});
    FirstPromoted(tx, At(pool.pending, A), At(pool.queue, A), pool.PN(A));
    HolderMatches(pool.pending, pool.queue, pool.book.txs, A, 0);
  }

  lemma OneStuck(tx0: Tx, tx1: Tx)
    requires tx0 == Sample(A, 0, 1, tx0.size) && tx1 == Sample(A, 1, 1, tx1.size)
    ensures Stuck(map[0 := tx0], map[1 := tx1], 0, 0, 0, GAS_LIMIT)
  {
    var p: Items, q: Items := map[0 := tx0], map[1 := tx1];
    AllUsable(p, 0, 0, GAS_LIMIT);
    AllUsable(q, 0, 0, GAS_LIMIT);
    RunEndUnique(p, 0, 1);
  }

  /** A reset to the same state, before the second transaction of A was promoted: it can be executed next, but stays
      queued. */
  method LeftByReset() returns (pool: TxPool)
    ensures pool.Inv() && pool.LeftAt(A) && pool.S(A) == 0
  {
    hide Agree, TxBook.Valid, TxPool.RestsAt, TxPool.ResetsAt, TxPool.AheadAt, TxPool.PN, Promoted, Total, Left, Stuck;
    hide Served, CutDown, Reinjected, TxPool.Leaves, TxPool.Followed;
    var tx0;
    pool, tx0 := FirstPending(5120, 1024, 100);
    var tx1 := Sample(A, 1, 1, 100);
    pool.book.Accounts();
    OneSlots(tx0);
    Send(pool, tx1, 0, map[0 := tx0], map[], 1, {tx0});
    OneStuck(tx0, tx1);
    var mid, served := pool.Reorg(Some(ResetRequest(Sent(0), GAS_LIMIT, [], false, false, None)), {A});
  }

  /** A full pool of one cheap transaction takes a better one in its place. */
  lemma Outbid(pool: TxPool, tx: Tx, better: Tx)
    requires Holding(pool, 0, map[0 := tx], map[], 1, {tx}) && pool.book.all.remotes == {tx}
    requires tx == Sample(A, 0, 1, TX_MAX_SIZE) && better == Sample(B, 0, 2, 100)
    requires pool.config.globalSlots == pool.config.globalQueue == 2
    ensures pool.Displaces(better, pool.Rule().(state := Sent(1), maxGas := GAS_LIMIT))
  {
    hide Agree, LiveSlots, HolderIn, TxPool.RestsAt;
    OneSlots(tx);
    HolderPooled(pool.pending, pool.queue, pool.book.txs, B, 0);
    var priced := pool.book.priced;
    assert pool.book.all.remotes - pool.book.leaving == {tx};
    assert priced.Tracked(tx);
    LiveWithout(priced.Entries(), tx, {tx});
    assert tx in multiset(priced.urgent) || tx in multiset(priced.floating);
    assert Cmp(None, tx, better) < 0 && Cmp(priced.baseFee, tx, better) < 0;
  }

  lemma NothingOf(pool: TxPool, a: Address)
    requires pool.Sound() && forall tx :: tx in pool.book.txs ==> tx.from != a
    ensures At(pool.pending, a) == map[] && At(pool.queue, a) == map[] && a !in pool.queue
  {
    hide Agree, TxBook.Valid;
    forall n
      ensures n !in At(pool.pending, a) && n !in At(pool.queue, a)
    {
      HolderMatches(pool.pending, pool.queue, pool.book.txs, a, n);
    }
    NotEmpty(pool.pending, pool.queue, pool.book.txs, a);
  }

  /** A reset that reinjects a transaction into a full pool: the mined transaction of A is evicted while it is still
      pending, and the virtual nonce of A is behind the new state. */
  method ResetEvicts(pool: TxPool, tx: Tx, better: Tx)
    requires Holding(pool, 0, map[0 := tx], map[], 1, {tx}) && pool.book.all.remotes == {tx}
    requires tx == Sample(A, 0, 1, TX_MAX_SIZE) && better == Sample(B, 0, 2, 100)
    requires pool.config.globalSlots == pool.config.globalQueue == 2
    modifies pool, pool.book, pool.book.all, pool.book.priced
    ensures pool.Sound() && pool.book.leaving == {} && pool.Resetting() && fresh(pool.pendingNonces)
    ensures pool.currentState == Sent(1) && pool.currentMaxGas == GAS_LIMIT && pool.gasPrice == 1 && pool.locals == {}
    ensures pool.book.txs <= {better} && pool.PN(A) == 0
  {
    hide Agree, TxBook.Valid, TxPool.RestsAt, TxPool.ResetsAt, TxPool.AheadAt, TxPool.PN, At, Checks, Standing;
    hide TxPool.Displaces, Acceptable;
    Outbid(pool, tx, better);
    assert [better][0] in SetOf([better]);
    pool.Reset(ResetRequest(Sent(1), GAS_LIMIT, [better], false, false, None));
    NothingOf(pool, A);
    assert 0 in old(At(pool.pending, A)) && LostBelow(old(At(pool.pending, A)), At(pool.pending, A), 1);
  }

  /** The run of that reset ends with the virtual nonce of A behind. */
  method FallBehind() returns (pool: TxPool)
    ensures pool.config.globalSlots == pool.config.globalQueue == 2
    ensures Holding(pool, 1, map[], map[], 0, pool.book.txs) && pool.book.txs <= {Sample(B, 0, 2, 100)}
    ensures fresh(pool) && fresh(pool.book) && fresh(pool.book.all) && fresh(pool.book.priced)
            && fresh(pool.pendingNonces)
  {
    hide Agree, TxBook.Valid, TxPool.RestsAt, TxPool.ResetsAt, TxPool.AheadAt, TxPool.PN, Promoted, Total, Left, Stuck;
    hide At, TxPool.SteadyAt, TxPool.LeftAt, TxPool.StuckAt, Served, CutDown;
    var tx;
    pool, tx := FirstPending(2, 2, TX_MAX_SIZE);
    ResetEvicts(pool, tx, Sample(B, 0, 2, 100));
    NothingOf(pool, A);
    pool.PromoteAndDemote(None);
    pool.Truncate();
    NothingOf(pool, A);
  }

  /** After that, the next transaction of A can be executed, but a run for A leaves it in the queue. */
  method LeftBehind() returns (pool: TxPool)
    ensures pool.Inv() && pool.LeftAt(A) && pool.S(A) == 1
  {
    hide Agree, TxBook.Valid, TxPool.RestsAt, TxPool.ResetsAt, TxPool.AheadAt, TxPool.PN, Promoted, Total, Left, Stuck;
    hide At, CutDown, TxPool.Followed, Advanced;
    pool := FallBehind();
    var tx := Sample(A, 1, 1, 100);
    pool.book.Accounts();
    ghost var others := pool.book.txs;
    OneSlots(Sample(B, 0, 2, 100));
    SlotsShrink(others, {Sample(B, 0, 2, 100)});
    Send(pool, tx, 1, map[], map[], 0, others);
    AllUsable(map[1 := tx], 1, 0, GAS_LIMIT);
    NoMore(pool.book.txs, {Sample(B, 0, 2, 100), tx});
    var mid, served := pool.Reorg(None, {A});
  }
}
