/** TxPool: the tables of the pool and the operations that run under its lock. */
module TxPools {
  import opened Transactions
  import opened TxLists
  import opened PoolStructure
  import opened PoolNonces
  import opened PoolTurns
  import opened PoolFairness
  import opened PoolBatches
  import opened PoolResets
  import opened Lookups
  import opened TxBooks
  import opened PricedLists
  import Heap = BinaryHeap

  datatype Config = Config(priceLimit: nat, priceBump: nat, accountSlots: nat, globalSlots: nat, accountQueue: nat,
                           globalQueue: nat)

  const DEFAULT := Config(1, 10, 16, 5120, 64, 1024)

  predicate Workable(c: Config) {
    && c.priceLimit >= 1 && c.priceBump >= 1 && c.accountSlots >= 1 && c.globalSlots >= 1 && c.accountQueue >= 1
    && c.globalQueue >= 1
  }

  /** Any setting below one is replaced by its default, and every other is kept. */
  function Sanitize(c: Config): (r: Config)
    ensures Workable(r) && (Workable(c) ==> r == c)
    ensures (r.priceLimit == c.priceLimit || c.priceLimit == 0) && (r.priceBump == c.priceBump || c.priceBump == 0)
    ensures (r.accountSlots == c.accountSlots || c.accountSlots == 0)
            && (r.globalSlots == c.globalSlots || c.globalSlots == 0)
    ensures (r.accountQueue == c.accountQueue || c.accountQueue == 0)
            && (r.globalQueue == c.globalQueue || c.globalQueue == 0)
    ensures (c.priceLimit == 0 ==> r.priceLimit == 1) && (c.priceBump == 0 ==> r.priceBump == 10)
    ensures (c.accountSlots == 0 ==> r.accountSlots == 16) && (c.globalSlots == 0 ==> r.globalSlots == 4096 + 1024)
    ensures (c.accountQueue == 0 ==> r.accountQueue == 64) && (c.globalQueue == 0 ==> r.globalQueue == 1024)
  {
    Config(if c.priceLimit < 1 then DEFAULT.priceLimit else c.priceLimit,
           if c.priceBump < 1 then DEFAULT.priceBump else c.priceBump,
           if c.accountSlots < 1 then DEFAULT.accountSlots else c.accountSlots,
           if c.globalSlots < 1 then DEFAULT.globalSlots else c.globalSlots,
           if c.accountQueue < 1 then DEFAULT.accountQueue else c.accountQueue,
           if c.globalQueue < 1 then DEFAULT.globalQueue else c.globalQueue)
  }

  /** The chain state the pool validates against. */
  datatype ChainState = ChainState(nonce: Address -> nat, balance: Address -> int)

  const MAX_256: nat := 0x1_0000000000000000_0000000000000000_0000000000000000_0000000000000000

  /** The state and limits a transaction is validated against. */
  datatype Rules = Rules(state: ChainState, maxGas: nat, gasPrice: nat, eip2718: bool, eip1559: bool)

  /** Executable in some future of the state, well formed under the forks in force, and worth its place. */
  predicate Acceptable(tx: Tx, local: bool, rules: Rules) {
    && tx.signed && rules.state.nonce(tx.from) <= tx.nonce && 0 <= tx.value
    && tx.cost <= rules.state.balance(tx.from) && tx.intrinsicGas <= tx.gas <= rules.maxGas
    && tx.tipCap <= tx.feeCap < MAX_256 && tx.size <= TX_MAX_SIZE && (local || rules.gasPrice <= tx.tipCap)
    && (tx.kind.Legacy? || (rules.eip2718 && (tx.kind.AccessList? || rules.eip1559)))
  }

  /** What each complaint of validation means. */
  ghost predicate Fault(e: PoolError, tx: Tx, local: bool, rules: Rules) {
    match e
    case TxTypeNotSupported =>
      (tx.kind.AccessList? && !rules.eip2718) || (tx.kind.DynamicFee? && !(rules.eip2718 && rules.eip1559))
    case OversizedData => tx.size > 4 * 32768
    case NegativeValue => tx.value < 0
    case GasLimit => tx.gas > rules.maxGas
    case FeeCapVeryHigh => tx.feeCap >= MAX_256
    case TipVeryHigh => tx.tipCap >= MAX_256
    case TipAboveFeeCap => tx.tipCap > tx.feeCap
    case InvalidSender => !tx.signed
    case UnderpricedTx => !local && tx.tipCap < rules.gasPrice
    case NonceTooLow => tx.nonce < rules.state.nonce(tx.from)
    case InsufficientFunds => tx.cost > rules.state.balance(tx.from)
    case IntrinsicGas => tx.gas < tx.intrinsicGas
    case _ => false
  }

  /** The order in which validation complains. */
  const COMPLAINTS := [TxTypeNotSupported, OversizedData, NegativeValue, GasLimit, FeeCapVeryHigh, TipVeryHigh,
                       TipAboveFeeCap, InvalidSender, UnderpricedTx, NonceTooLow, InsufficientFunds, IntrinsicGas]

  /** It names the first complaint that holds. */
  lemma CheckNamesFirst(tx: Tx, local: bool, rules: Rules)
    ensures Check(tx, local, rules).Some? ==>
              exists i :: 0 <= i < |COMPLAINTS| && Check(tx, local, rules) == Some(COMPLAINTS[i])
                          && Fault(COMPLAINTS[i], tx, local, rules)
                          && forall j :: 0 <= j < i ==> !Fault(COMPLAINTS[j], tx, local, rules)
    ensures Check(tx, local, rules).None? ==> forall e :: !Fault(e, tx, local, rules)
  {
    var r := Check(tx, local, rules);
    if r.Some? {
      var i := match r.value
        case TxTypeNotSupported => 0 case OversizedData => 1 case NegativeValue => 2 case GasLimit => 3
        case FeeCapVeryHigh => 4 case TipVeryHigh => 5 case TipAboveFeeCap => 6 case InvalidSender => 7
        case UnderpricedTx => 8 case NonceTooLow => 9 case InsufficientFunds => 10 case _ => 11;
      assert COMPLAINTS[i] == r.value;
    }
  }

  /** validateTx: the first thing wrong with a transaction, if any. */
  function Check(tx: Tx, local: bool, rules: Rules): (r: Option<PoolError>)
    ensures r.None? <==> Acceptable(tx, local, rules)
    ensures r.None? ==> !Unpayable(tx, rules.state.balance(tx.from), rules.maxGas)
  {
    if !rules.eip2718 && !tx.kind.Legacy? then Some(TxTypeNotSupported)
    else if !rules.eip1559 && tx.kind.DynamicFee? then Some(TxTypeNotSupported)
    else if tx.size > TX_MAX_SIZE then Some(OversizedData)
    else if tx.value < 0 then Some(NegativeValue)
    else if rules.maxGas < tx.gas then Some(GasLimit)
    else if tx.feeCap >= MAX_256 then Some(FeeCapVeryHigh)
    else if tx.tipCap >= MAX_256 then Some(TipVeryHigh)
    else if tx.feeCap < tx.tipCap then Some(TipAboveFeeCap)
    else if !tx.signed then Some(InvalidSender)
    else if !local && tx.tipCap < rules.gasPrice then Some(UnderpricedTx)
    else if rules.state.nonce(tx.from) > tx.nonce then Some(NonceTooLow)
    else if rules.state.balance(tx.from) < tx.cost then Some(InsufficientFunds)
    else if tx.gas < tx.intrinsicGas then Some(IntrinsicGas)
    else None
  }

  /** What validation says of each transaction of a batch; those of local senders count as local. */
  ghost function Checks(txs: seq<Tx>, local: bool, rules: Rules, locals: set<Address>): (r: seq<Option<PoolError>>)
    ensures |r| == |txs|
    ensures forall i :: 0 <= i < |txs| ==>
              r[i] == Check(txs[i], local || (txs[i].signed && txs[i].from in locals), rules)
  {
    if txs == [] then []
    else
      var tx := txs[|txs| - 1];
      Checks(txs[..|txs| - 1], local, rules, locals) + [Check(tx, local || (tx.signed && tx.from in locals), rules)]
  }

  /** A new head: the state to follow, the gas limit, the transactions of dropped blocks, the forks in force and the
      base fee of the next block once London is active. */
  datatype ResetRequest = ResetRequest(state: ChainState, maxGas: nat, reinject: seq<Tx>, eip2718: bool, eip1559: bool,
                                       baseFee: Option<nat>)

  /** What happens to a pool between two moments when its lock is free. */
  datatype Operation =
    | AddTxs(txs: seq<Tx>, local: bool)
    | RunReorg(reset: Option<ResetRequest>, dirty: set<Address>)
    | SetGasPrice(price: nat)
    | EvictQueues(expired: set<Address>)

  /** Every reset follows a state in which no account nonce is lower than before. */
  ghost predicate Advancing(state: ChainState, ops: seq<Operation>)
    decreases |ops|
  {
    ops != [] ==>
      if ops[0].RunReorg? && ops[0].reset.Some? then
        && (forall a :: state.nonce(a) <= ops[0].reset.value.state.nonce(a))
        && Advancing(ops[0].reset.value.state, ops[1..])
      else Advancing(state, ops[1..])
  }

  ghost predicate NoneReinjected(ops: seq<Operation>) {
    forall op :: op in ops && op.RunReorg? && op.reset.Some? ==> op.reset.value.reinject == []
  }

  class TxPool {
    const config: Config
    const book: TxBook
    var pendingNonces: TxNoncer
    var currentState: ChainState
    var currentMaxGas: nat
    var gasPrice: nat
    var eip2718: bool
    var eip1559: bool
    var locals: set<Address>
    var pending: Shelf
    var queue: Shelf

    /** The state's nonce of an account. */
    function S(a: Address): nat
      reads this`currentState
    {
      currentState.nonce(a)
    }

    /** The pool's virtual nonce of an account. */
    function PN(a: Address): nat
      reads this`pendingNonces, pendingNonces
    {
      pendingNonces.Nonce(a)
    }

    /** The tables agree: pending and queue are disjoint and together exactly the lookup. */
    ghost predicate Sound()
      reads this, book, book.all, book.priced
    {
      book.Valid() && Settled(pending, queue, book.txs) && Workable(config)
    }

    /** An account at rest: its pending nonces are exactly the range from the state nonce to the virtual nonce,
        and no queued nonce is older than the state. */
    ghost predicate RestsAt(a: Address)
      reads this`pending, this`queue, this`currentState, this`pendingNonces, pendingNonces
    {
      Range(At(pending, a), S(a), PN(a)) && Fresh(At(queue, a), S(a))
    }

    /** An account while a reset reinjects transactions: no gap from the new state nonce on, virtual nonce not past
        it. */
    ghost predicate ResetsAt(a: Address)
      reads this`pending, this`queue, this`currentState, this`pendingNonces, pendingNonces
    {
      Solid(At(pending, a), S(a)) && PN(a) <= S(a)
    }

    ghost predicate Resting()
      reads this`pending, this`queue, this`currentState, this`pendingNonces, pendingNonces
    {
      forall a :: RestsAt(a)
    }

    ghost predicate Resetting()
      reads this`pending, this`queue, this`currentState, this`pendingNonces, pendingNonces
    {
      forall a :: ResetsAt(a)
    }

    ghost predicate Inv()
      reads this, book, book.all, book.priced, pendingNonces
    {
      Sound() && book.leaving == {} && Resting()
    }

    constructor (config: Config, state: ChainState, maxGas: nat, locals: set<Address>, eip2718: bool, eip1559: bool)
      ensures Inv() && fresh(book) && fresh(book.all) && fresh(book.priced) && fresh(pendingNonces)
      ensures pending == queue == map[] && book.txs == {} && this.config == Sanitize(config) && this.locals == locals
      ensures currentState == state && currentMaxGas == maxGas && gasPrice == this.config.priceLimit
      ensures this.eip2718 == eip2718 && this.eip1559 == eip1559
      ensures forall a :: PN(a) == S(a) && AheadAt(a)
    {
      this.config := Sanitize(config);
      book := new TxBook();
      pendingNonces := new TxNoncer(state.nonce);
      currentState, currentMaxGas, this.locals := state, maxGas, locals;
      gasPrice := Sanitize(config).priceLimit;
      this.eip2718, this.eip1559 := eip2718, eip1559;
      pending, queue := map[], map[];
    }

    // ----- inserting -----

    /** Queue a transaction that is in no list; `rest` is what else of its account is in flight. */
    method EnqueueTx(tx: Tx, local: bool, addAll: bool, ghost rest: Items) returns (r: Outcome)
      requires book.Valid() && (addAll <==> tx !in book.txs) && (addAll ==> book.leaving == {})
      requires Agree(pending, queue, book.txs - {tx}, tx.from, rest)
      requires tx.nonce !in At(pending, tx.from) && tx.nonce !in rest
      modifies this`queue, book, book.all, book.priced
      ensures book.Valid() && book.leaving <= old(book.leaving) && book.SameFee()
      // it gets in exactly when the nonce is free or the queued holder is outbid
      ensures r.Ok? <==> Yields(old(At(queue, tx.from)), tx, config.priceBump)
      ensures r.Ok? ==> r.replaced == (tx.nonce in old(At(queue, tx.from)))
      ensures r.Failed? ==> r.error == ReplaceUnderpriced && queue == old(queue) && book.txs == old(book.txs)
                            && book.all.remotes == old(book.all.remotes)
      ensures r.Ok? ==> Agree(pending, queue, book.txs, tx.from, rest)
      ensures r.Ok? ==> At(queue, tx.from) == old(At(queue, tx.from))[tx.nonce := tx]
      ensures r.Ok? ==> forall x :: x != tx.from ==> At(queue, x) == old(At(queue, x))
      ensures r.Ok? ==> book.txs == old(book.txs) - HeldAt(old(At(queue, tx.from)), tx.nonce) + {tx}
      ensures r.Ok? ==> book.all.remotes == old(book.all.remotes) - HeldAt(old(At(queue, tx.from)), tx.nonce)
                                            + (if addAll && !local then {tx} else {})
    {
      hide Agree, TxBook.Valid, Outbids, Shelve, List.Valid;
      ListsValid(pending, queue, book.txs - {tx}, tx.from, rest);
      var a := tx.from;
      var l := if a in queue then queue[a] else EmptyLoose;
      if !l.Accepts(tx, config.priceBump) {
        return Failed(ReplaceUnderpriced);
      }
      if tx.nonce in l.items { NotSelf(l.items, tx, config.priceBump); }
      AddValid(l, tx);
      LandInQueue(pending, queue, book.txs - {tx}, rest, tx, l.Add(tx));
      queue := Shelve(queue, a, l.Add(tx));
      var held := if tx.nonce in l.items then Some(l.items[tx.nonce]) else None;
      book.Replace(held, tx, local, addAll);
      SwapSets(old(book.txs), book.txs, l.items, tx);
      r := Ok(held.Some?);
    }

    /** Make a transaction pending that is in no list, unless the holder of its nonce is better. */
    method PromoteTx(tx: Tx, ghost rest: Items) returns (promoted: bool)
      requires book.Valid() && tx in book.txs
      requires Agree(pending, queue, book.txs - {tx}, tx.from, rest)
      requires tx.nonce !in At(queue, tx.from) && tx.nonce !in rest
      modifies this`pending, book, book.all, book.priced, pendingNonces
      ensures book.Valid() && book.leaving <= old(book.leaving) && book.SameFee()
      // it gets in exactly when the nonce is free or the pending holder is outbid, and leaves the pool otherwise
      ensures promoted <==> Yields(old(At(pending, tx.from)), tx, config.priceBump)
      ensures book.txs == if promoted then old(book.txs) - HeldAt(old(At(pending, tx.from)), tx.nonce) + {tx}
                          else old(book.txs) - {tx}
      ensures book.all.remotes == old(book.all.remotes)
                                  - if promoted then HeldAt(old(At(pending, tx.from)), tx.nonce) else {tx}
      ensures tx.nonce !in old(At(pending, tx.from)) ==> promoted && book.txs == old(book.txs)
      ensures Agree(pending, queue, book.txs, tx.from, rest)
      ensures promoted ==>
                At(pending, tx.from) == old(At(pending, tx.from))[tx.nonce := tx] && PN(tx.from) == tx.nonce + 1
      ensures !promoted ==> pending == old(pending) && PN(tx.from) == old(PN(tx.from))
      ensures forall x :: x != tx.from ==> At(pending, x) == old(At(pending, x)) && PN(x) == old(PN(x))
    {
      hide Agree, TxBook.Valid, Outbids, Shelve, List.Valid, TxNoncer.Nonce;
      ListsValid(pending, queue, book.txs - {tx}, tx.from, rest);
      var a := tx.from;
      var l := if a in pending then pending[a] else EmptyStrict;
      if !l.Accepts(tx, config.priceBump) {
        book.Remove(tx, true);
        return false;
      }
      if tx.nonce in l.items { NotSelf(l.items, tx, config.priceBump); }
      AddValid(l, tx);
      LandInPending(pending, queue, book.txs - {tx}, rest, tx, l.Add(tx));
      pending := Shelve(pending, a, l.Add(tx));
      var held := if tx.nonce in l.items then Some(l.items[tx.nonce]) else None;
      book.Replace(held, tx, false, false);
      SwapSets(old(book.txs), book.txs, l.items, tx);
      pendingNonces.Set(a, tx.nonce + 1);
      promoted := true;
    }

    // ----- removing -----

    /** Put back into the queue what lost its place in pending. Under Agree no nonce can collide. */
    method Postpone(a: Address, invalids: Items)
      requires book.Valid() && Agree(pending, queue, book.txs, a, invalids)
      modifies this`queue, book, book.all, book.priced
      ensures book.SameFee()
      ensures book.Valid() && book.leaving <= old(book.leaving) && book.all.remotes == old(book.all.remotes)
      ensures Agree(pending, queue, book.txs, a, map[]) && book.txs == old(book.txs)
      ensures At(queue, a) == old(At(queue, a)) + invalids
      ensures forall x :: x != a ==> At(queue, x) == old(At(queue, x))
    {
      hide Agree, TxBook.Valid, At, Parted;
      var left := invalids;
      ghost var done: Items := map[];
      PartedStart(invalids, old(At(queue, a)));
      while left != map[]
        invariant book.Valid() && book.leaving <= old(book.leaving) && book.all.remotes == old(book.all.remotes)
        invariant book.SameFee()
        invariant Agree(pending, queue, book.txs, a, left) && book.txs == old(book.txs)
        invariant Parted(invalids, left, done) && At(queue, a) == old(At(queue, a)) + done
        invariant forall x :: x != a ==> At(queue, x) == old(At(queue, x))
        decreases |left|
      {
        var n :| n in left;
        PartedStep(invalids, left, done, n);
        MergeOne(old(At(queue, a)), done, n, left[n]);
        PostponeOne(a, left, n);
        left, done := left - {n}, done[n := left[n]];
      }
      PartedDone(invalids, done);
    }

    method PostponeOne(a: Address, left: Items, n: nat)
      requires book.Valid() && Agree(pending, queue, book.txs, a, left) && n in left
      modifies this`queue, book, book.all, book.priced
      ensures book.SameFee()
      ensures book.Valid() && book.leaving <= old(book.leaving) && book.all.remotes == old(book.all.remotes)
      ensures Agree(pending, queue, book.txs, a, left - {n}) && book.txs == old(book.txs)
      ensures At(queue, a) == old(At(queue, a))[n := left[n]]
      ensures forall x :: x != a ==> At(queue, x) == old(At(queue, x))
    {
      hide Agree, TxBook.Valid;
      var tx := left[n];
      FlightKnown(pending, queue, book.txs, a, left, n);
      DropOne(pending, queue, book.txs, a, left, tx);
      var r := EnqueueTx(tx, false, false, left - {n});
    }

    /** Remove one transaction; those it was holding up go back to the queue and the virtual nonce steps back. */
    method RemoveTx(tx: Tx, outofbound: bool)
      requires Sound()
      modifies this`pending, this`queue, book, book.all, book.priced, pendingNonces
      ensures book.SameFee()
      ensures Sound() && book.txs == old(book.txs) - {tx} && book.leaving <= old(book.leaving) - {tx}
      ensures book.all.remotes == old(book.all.remotes) - {tx}
      ensures tx !in old(book.txs) ==> pending == old(pending) && queue == old(queue) && PN(tx.from) == old(PN(tx.from))
      // exactly the named transaction leaves, although the lists are asked by nonce
      ensures tx in old(book.txs) && tx.nonce in old(At(pending, tx.from)) ==>
                && old(At(pending, tx.from))[tx.nonce] == tx
                && At(pending, tx.from) == Below(old(At(pending, tx.from)), tx.nonce)
                && At(queue, tx.from) == old(At(queue, tx.from)) + AtLeast(old(At(pending, tx.from)), tx.nonce + 1)
                && PN(tx.from) == Min(old(PN(tx.from)), tx.nonce)
      ensures tx in old(book.txs) && tx.nonce !in old(At(pending, tx.from)) ==>
                && Holds(old(At(queue, tx.from)), tx) && At(queue, tx.from) == old(At(queue, tx.from)) - {tx.nonce}
                && pending == old(pending) && PN(tx.from) == old(PN(tx.from))
                && queue == Shelve(old(queue), tx.from, old(queue)[tx.from].Remove(tx.nonce))
      ensures forall x :: x != tx.from ==>
                At(pending, x) == old(At(pending, x)) && At(queue, x) == old(At(queue, x)) && PN(x) == old(PN(x))
    {
      hide Agree, TxBook.Valid, Below, AtLeast;
      if !book.Has(tx) {
        return;
      }
      var a := tx.from;
      WhereIs(pending, queue, book.txs, tx);
      book.Remove(tx, outofbound);
      if a in pending && tx.nonce in pending[a].items {
        var l := pending[a].Remove(tx.nonce);
        var invalids := pending[a].items - {tx.nonce} - l.items.Keys;
        RemovePending(pending, queue, old(book.txs), tx);
        pending := Shelve(pending, a, l);
        Postpone(a, invalids);
        NothingInFlight(pending, queue, book.txs, a, 0);
        pendingNonces.SetIfLower(a, tx.nonce);
        return;
      }
      RemoveQueued(pending, queue, old(book.txs), tx);
      queue := Shelve(queue, a, queue[a].Remove(tx.nonce));
    }

    /** The virtual nonce of an account is not behind its state, and nothing older is pending. */
    ghost predicate AheadAt(a: Address)
      reads this`pending, this`currentState, this`pendingNonces, pendingNonces
    {
      S(a) <= PN(a) && Fresh(At(pending, a), S(a))
    }

    /** No virtual nonce rises, and each steps back to whatever left pending. */
    twostate predicate StepsBack()
      reads this`pending, this`pendingNonces, pendingNonces
    {
      forall a :: Shed(old(At(pending, a)), At(pending, a), old(PN(a)), PN(a))
    }

    /** Removing a transaction keeps what the pool promises at rest and while it is being reset. */
    method DropTx(tx: Tx, outofbound: bool)
      requires Sound()
      modifies this`pending, this`queue, book, book.all, book.priced, pendingNonces
      ensures book.SameFee()
      ensures Sound() && book.txs == old(book.txs) - {tx} && book.leaving <= old(book.leaving) - {tx}
      ensures book.all.remotes == old(book.all.remotes) - {tx}
      ensures KeepsPromises() && StepsBack()
    {
      hide Agree, TxBook.Valid, Below, AtLeast, Range, Fresh, Solid, Shed;
      RemoveTx(tx, outofbound);
      forall a
        ensures old(RestsAt(a)) ==> RestsAt(a)
        ensures old(ResetsAt(a)) ==> ResetsAt(a)
        ensures old(AheadAt(a)) ==> AheadAt(a)
        ensures Shed(old(At(pending, a)), At(pending, a), old(PN(a)), PN(a))
      {
        ghost var m, q := old(At(pending, a)), old(At(queue, a));
        ShedNone(m, m, old(PN(a)));
        if a == tx.from && tx.nonce in m { ShedCut(m, S(a), old(PN(a)), tx.nonce); }
        if a == tx.from && old(RestsAt(a)) {
          StillFresh(q, S(a), tx.nonce);
          if tx.nonce in m { CutRests(m, q, S(a), old(PN(a)), tx.nonce); }
        }
        if old(ResetsAt(a)) { CutStaysSolid(m, S(a), tx.nonce); }
      }
    }

    // ----- adding -----

    /** What validation goes by. */
    function Rule(): Rules
      reads this
    {
      Rules(currentState, currentMaxGas, gasPrice, eip2718, eip1559)
    }

    function Validate(tx: Tx, local: bool): (r: Option<PoolError>)
      reads this
      ensures r.None? <==> Acceptable(tx, local, Rule())
      ensures r.None? ==> S(tx.from) <= tx.nonce && !Unpayable(tx, currentState.balance(tx.from), currentMaxGas)
    {
      Check(tx, local, Rule())
    }

    predicate IsLocal(tx: Tx, local: bool)
      reads this
    {
      local || (tx.signed && tx.from in locals)
    }

    /** What the pool promises at rest still holds if it did, and so does what it promises during a reset. */
    twostate predicate KeepsPromises()
      reads this`pending, this`queue, this`currentState, this`pendingNonces, pendingNonces
    {
      && (old(Resting()) ==> Resting()) && (old(Resetting()) ==> Resetting())
      && forall a :: old(AheadAt(a)) ==> AheadAt(a)
    }

    /** How many slots the pool has. */
    function Limit(): nat { config.globalSlots + config.globalQueue }

    /** The pool can take so many more slots without evicting anything. */
    predicate HasRoom(slots: int)
      reads book, book.all
    {
      book.all.slots + slots <= Limit()
    }

    /** The slots in use beyond the limit of the pool, which only local transactions can bring about. */
    ghost function Excess(): nat
      reads book, book.all
    {
      Over(book.all.slots, Limit())
    }

    /** Why a valid transaction is turned away at the door: a full pool takes a remote one only for cheaper ones. */
    ghost function Turned(tx: Tx, isLocal: bool): Option<PoolError>
      reads book, book.all, book.priced
    {
      if isLocal || HasRoom(NumSlots(tx)) then None
      else if book.Outpriced(tx) then Some(UnderpricedTx)
      else if !HasRoom(NumSlots(tx) - book.Evictable()) then Some(TxPoolOverflow)
      else None
    }

    /** Who holds the nonce of tx. */
    ghost function Holder(tx: Tx): Option<Tx>
      reads this`pending, this`queue
    {
      HolderIn(pending, queue, tx.from, tx.nonce)
    }

    /** tx took its nonce, in pending if that held it and in the queue otherwise, and nothing else moved. */
    twostate predicate Placed(tx: Tx)
      reads this`pending, this`queue
    {
      && (forall x :: x != tx.from ==> At(pending, x) == old(At(pending, x)) && At(queue, x) == old(At(queue, x)))
      && var p, q := old(At(pending, tx.from)), old(At(queue, tx.from));
         if tx.nonce in p then At(pending, tx.from) == p[tx.nonce := tx] && At(queue, tx.from) == q
         else At(pending, tx.from) == p && At(queue, tx.from) == q[tx.nonce := tx]
    }

    /** Evict remote transactions when the pool is full; `gone` is what was picked, repeats included. */
    method MakeRoom(tx: Tx, isLocal: bool) returns (err: Option<PoolError>, ghost gone: seq<Tx>)
      requires Sound() && book.leaving == {}
      modifies this`pending, this`queue, book, book.all, book.priced, pendingNonces
      ensures Sound() && book.leaving == {} && KeepsPromises() && StepsBack() && book.SameFee()
      ensures err == old(Turned(tx, isLocal))
      // what was picked is gone, it was all remote, and for a remote transaction it was enough
      ensures book.txs == old(book.txs) - SetOf(gone) && book.all.remotes == old(book.all.remotes) - SetOf(gone)
      ensures SetOf(gone) <= old(book.all.remotes) <= old(book.txs)
              && (err.Some? || old(HasRoom(NumSlots(tx))) ==> gone == [])
      ensures err.None? && !isLocal ==> old(HasRoom(NumSlots(tx) - SlotSum(gone)))
      // and no more than that takes
      ensures gone != [] ==> !old(HasRoom(NumSlots(tx) - SlotSum(gone[..|gone| - 1])))
      ensures Costs(SetOf(gone), old(Excess()), Over(book.all.slots + NumSlots(tx), Limit()), NumSlots(tx))
      ensures gone == [] ==> pending == old(pending) && queue == old(queue) && book.all.slots == old(book.all.slots)
      ensures gone == [] ==> forall a :: PN(a) == old(PN(a))
    {
      hide Agree, TxBook.Valid, TxPool.RestsAt, TxPool.ResetsAt, TxPool.AheadAt, At, Shed, TxPool.PN, TxBook.Outpriced;
      hide TxBook.Evictable, Costs, Over, SlotsOf;
      err, gone := None, [];
      book.Accounts();
      NoneFreed();
      EvictedFew(book.txs, [], NumSlots(tx), Limit());
      ShedAll();
      var limit := Limit();
      if book.all.slots + NumSlots(tx) > limit {
        if !isLocal {
          var underpriced := book.Underpriced(tx);
          if underpriced { return Some(UnderpricedTx), []; }
        }
        var drop, ok := book.Discard(book.all.slots - limit + NumSlots(tx), isLocal);
        if !isLocal && !ok {
          return Some(TxPoolOverflow), [];
        }
        gone := drop;
        EvictAll(drop);
        book.Accounts();
        EvictedFew(old(book.txs), gone, NumSlots(tx), limit);
        assert gone == [] ==> book.txs == old(book.txs);
      }
    }

    /** Remove what was picked for eviction. */
    method EvictAll(drop: seq<Tx>)
      requires Sound() && book.leaving == SetOf(drop)
      modifies this`pending, this`queue, book, book.all, book.priced, pendingNonces
      ensures Sound() && book.leaving == {} && KeepsPromises() && StepsBack() && book.SameFee()
      ensures book.txs == old(book.txs) - SetOf(drop) && book.all.remotes == old(book.all.remotes) - SetOf(drop)
      ensures drop == [] ==> pending == old(pending) && queue == old(queue) && forall a :: PN(a) == old(PN(a))
    {
      hide Agree, TxBook.Valid, TxPool.RestsAt, TxPool.ResetsAt, TxPool.AheadAt, At, Shed, TxPool.PN;
      ShedAll();
      for i := 0 to |drop|
        invariant Sound() && KeepsPromises() && StepsBack() && book.leaving <= SetOf(drop[i..]) && book.SameFee()
        invariant book.txs == old(book.txs) - SetOf(drop[..i])
        invariant book.all.remotes == old(book.all.remotes) - SetOf(drop[..i])
        invariant i == 0 ==> pending == old(pending) && queue == old(queue) && forall a :: PN(a) == old(PN(a))
      {
        assert drop[i..] == [drop[i]] + drop[i + 1..] && drop[..i + 1] == drop[..i] + [drop[i]];
        label turn:
        DropTx(drop[i], false);
        forall a
          ensures Shed(old(At(pending, a)), At(pending, a), old(PN(a)), PN(a))
        {
          ShedChain(old(At(pending, a)), old@turn(At(pending, a)), At(pending, a), old(PN(a)), old@turn(PN(a)), PN(a));
        }
      }
      assert drop[..|drop|] == drop;
    }

    /** Replace a pending transaction of the same nonce, if the price bump is met. */
    method ReplacePending(tx: Tx, isLocal: bool) returns (r: Outcome)
      requires Sound() && book.leaving == {} && tx !in book.txs && tx.nonce in At(pending, tx.from)
      modifies this`pending, book, book.all, book.priced
      ensures Sound() && book.leaving == {} && book.SameFee()
      ensures r.Ok? <==> Outbids(tx, old(At(pending, tx.from))[tx.nonce], config.priceBump)
      ensures r.Ok? ==> r.replaced && Placed(tx)
      ensures r.Ok? ==> var held := old(At(pending, tx.from))[tx.nonce];
                        && book.txs == old(book.txs) - {held} + {tx}
                        && book.all.remotes == old(book.all.remotes) - {held} + (if isLocal then {} else {tx})
      ensures r.Failed? ==> r.error == ReplaceUnderpriced && pending == old(pending) && book.txs == old(book.txs)
                            && book.all.remotes == old(book.all.remotes)
    {
      hide Agree, TxBook.Valid, Outbids;
      var a := tx.from;
      var l := pending[a];
      if !l.Accepts(tx, config.priceBump) {
        return Failed(ReplaceUnderpriced);
      }
      NotSelf(l.items, tx, config.priceBump);
      SwapPending(pending, queue, book.txs, tx);
      pending := Shelve(pending, a, l.Add(tx));
      book.Replace(Some(l.items[tx.nonce]), tx, isLocal, true);
      r := Ok(true);
    }

    /** Queue a new, validated transaction. */
    method AddQueued(tx: Tx, isLocal: bool) returns (r: Outcome)
      requires Sound() && book.leaving == {} && tx !in book.txs && tx.nonce !in At(pending, tx.from)
      requires S(tx.from) <= tx.nonce
      modifies this`queue, book, book.all, book.priced
      ensures Sound() && book.leaving == {} && KeepsPromises() && book.SameFee()
      ensures r.Ok? <==> Yields(old(At(queue, tx.from)), tx, config.priceBump)
      ensures r.Ok? ==> r.replaced == (tx.nonce in old(At(queue, tx.from))) && Placed(tx)
      ensures r.Ok? ==> var held := HeldAt(old(At(queue, tx.from)), tx.nonce);
                        && book.txs == old(book.txs) - held + {tx}
                        && book.all.remotes == old(book.all.remotes) - held + (if isLocal then {} else {tx})
      ensures r.Failed? ==> r.error == ReplaceUnderpriced && queue == old(queue) && book.txs == old(book.txs)
                            && book.all.remotes == old(book.all.remotes)
    {
      hide Agree, TxBook.Valid, Range, Fresh, Solid, Yields;
      assert book.txs - {tx} == book.txs;
      NothingInFlight(pending, queue, book.txs, 0, tx.from);
      r := EnqueueTx(tx, isLocal, true, map[]);
      if r.Ok? {
        NothingInFlight(pending, queue, book.txs, tx.from, 0);
        forall a
          ensures old(RestsAt(a)) ==> RestsAt(a)
          ensures old(ResetsAt(a)) ==> ResetsAt(a)
        {
          if old(RestsAt(a)) && a == tx.from { FreshWith(old(At(queue, a)), S(a), tx); }
        }
      }
    }

    /** Add one transaction to the pool. */
    method Add(tx: Tx, local: bool) returns (r: Outcome)
      requires Sound() && book.leaving == {}
      modifies this`pending, this`queue, this`locals, book, book.all, book.priced, pendingNonces
      ensures Sound() && book.leaving == {} && KeepsPromises() && StepsBack() && book.SameFee()
      ensures r == Failed(AlreadyKnown) <==> tx in old(book.txs)
      ensures r == Failed(AlreadyKnown) ==> Untouched()
      // a transaction that is invalid or finds the door closed changes nothing and is told why
      ensures tx !in old(book.txs) && old(Refusal(tx, local)).Some? ==>
                r.Error() == old(Refusal(tx, local)) && Untouched()
      // otherwise it gets in exactly if it outbids the holder of its nonce, if any, or makes it leave
      ensures tx !in old(book.txs) && old(Refusal(tx, local)).None? ==>
                && (r.Failed? ==> r.error == ReplaceUnderpriced)
                && (r.Failed? <==> !old(Free(tx)) && old(Holder(tx)).value in book.txs)
      // where there is room, exactly then, and all that happens is that it takes its nonce
      ensures tx !in old(book.txs) && old(HasRoom(NumSlots(tx)) && Refusal(tx, local).None?) ==>
                && (if old(Free(tx)) then r == Ok(old(Holder(tx)).Some?) && Placed(tx) else Untouched())
                && forall a :: PN(a) == old(PN(a))
      ensures old(HasRoom(NumSlots(tx))) && r.Ok? ==> book.txs == old(book.txs) - HolderSet(old(Holder(tx))) + {tx}
      ensures old(HasRoom(NumSlots(tx))) && r.Ok? && !local ==>
                book.all.remotes == old(book.all.remotes) - HolderSet(old(Holder(tx)))
                  + (if tx.from in old(locals) then {} else {tx})
      ensures old(HasRoom(NumSlots(tx))) ==> Calm() && book.all.slots <= old(book.all.slots) + NumSlots(tx)
      ensures old(HasRoom(NumSlots(tx))) && (r.Ok? || r.error in {AlreadyKnown, ReplaceUnderpriced}) ==>
                Holder(tx).Some?
      // in a full pool a remote one makes others leave
      ensures !old(HasRoom(NumSlots(tx)) || IsLocal(tx, local)) && r.Ok? ==> old(book.txs) - book.txs != {}
      // whether it got in, and nothing but it does
      ensures r.Ok? ==> tx in book.txs
      ensures r.Failed? ==> book.txs <= old(book.txs)
      ensures book.txs <= old(book.txs) + {tx}
      // what leaves was remote, or is the one replaced, and nothing else becomes remote
      ensures book.all.remotes <= old(book.all.remotes) + {tx}
      ensures forall t :: t in old(book.txs) && t !in book.txs ==>
                t in old(book.all.remotes) || old(Holder(tx)) == Some(t)
      // of others it costs at most as many as it has slots, on top of what the pool was over its limit
      ensures Spends(old(book.txs), book.txs, HolderSet(old(Holder(tx))), old(Excess()), Excess(), NumSlots(tx))
      // a local one that is queued makes its sender local
      ensures locals
              == if local && r.Ok? && tx.nonce !in At(pending, tx.from) then old(locals) + {tx.from} else old(locals)
    {
      hide Agree, TxBook.Valid, TxPool.RestsAt, TxPool.ResetsAt, TxPool.AheadAt, Shed, TxPool.PN, At, CalmAt;
      hide TxPool.Turned, TxPool.Free, TxPool.Placed, Spends, Over;
      ShedAll();
      CalmAll();
      HolderPooled(pending, queue, book.txs, tx.from, tx.nonce);
      SpendsNothing(book.txs, HolderSet(Holder(tx)), Excess(), NumSlots(tx));
      if book.Has(tx) {
        return Failed(AlreadyKnown);
      }
      var isLocal := IsLocal(tx, local);
      var invalid := Validate(tx, isLocal);
      if invalid.Some? {
        return Failed(invalid.value);
      }
      r := Admit(tx, local, isLocal);
    }

    /** Make room for a valid transaction and give it its nonce. */
    method Admit(tx: Tx, local: bool, isLocal: bool) returns (r: Outcome)
      requires Sound() && book.leaving == {} && tx !in book.txs && S(tx.from) <= tx.nonce
      modifies this`pending, this`queue, this`locals, book, book.all, book.priced, pendingNonces
      ensures book.SameFee()
      ensures Sound() && book.leaving == {} && KeepsPromises() && StepsBack() && r != Failed(AlreadyKnown)
      ensures old(Turned(tx, isLocal)).Some? ==> r == Failed(old(Turned(tx, isLocal)).value) && Untouched()
      ensures old(Turned(tx, isLocal)).None? ==>
                && (r.Failed? ==> r.error == ReplaceUnderpriced)
                && (r.Failed? <==> !old(Free(tx)) && old(Holder(tx)).value in book.txs)
      ensures old(HasRoom(NumSlots(tx))) ==>
                && (if old(Free(tx)) then r == Ok(old(Holder(tx)).Some?) && Placed(tx) else Untouched())
                && Calm() && book.all.slots <= old(book.all.slots) + NumSlots(tx) && Holder(tx).Some?
                && forall a :: PN(a) == old(PN(a))
      ensures old(HasRoom(NumSlots(tx))) && r.Ok? ==> book.txs == old(book.txs) - HolderSet(old(Holder(tx))) + {tx}
      ensures old(HasRoom(NumSlots(tx))) && r.Ok? && !local ==>
                book.all.remotes == old(book.all.remotes) - HolderSet(old(Holder(tx))) + (if isLocal then {} else {tx})
      ensures !old(HasRoom(NumSlots(tx))) && !isLocal && r.Ok? ==> old(book.txs) - book.txs != {}
      ensures Exchanged(old(book.txs), old(book.all.remotes), old(Holder(tx)), tx, book.txs, r.Ok?)
      ensures Spends(old(book.txs), book.txs, HolderSet(old(Holder(tx))), old(Excess()), Excess(), NumSlots(tx))
      ensures book.all.remotes <= old(book.all.remotes) + {tx}
      ensures locals
              == if local && r.Ok? && tx.nonce !in At(pending, tx.from) then old(locals) + {tx.from} else old(locals)
    {
      hide Agree, TxBook.Valid, TxPool.RestsAt, TxPool.ResetsAt, TxPool.AheadAt, Shed, TxPool.PN, Outbids, CalmAt;
      hide TxBook.Outpriced, TxBook.Evictable, HolderIn, HolderSet, At, SlotSum, Exchanged, SetOf, Costs, Over, Spends;
      hide SlotsOf, NumSlots;
      ShedAll();
      CalmAll();
      HolderPooled(pending, queue, book.txs, tx.from, tx.nonce);
      NoneExchanged(book.txs, book.all.remotes, Holder(tx), tx);
      SpendsNothing(book.txs, HolderSet(Holder(tx)), Excess(), NumSlots(tx));
      var err, gone := MakeRoom(tx, isLocal);
      if err.Some? {
        return Failed(err.value);
      }
      label roomy:
      NoneFreed();
      assert gone == [] && !isLocal ==> old(HasRoom(NumSlots(tx)));
      HolderAfter(old(pending), old(queue), old(book.txs), pending, queue, book.txs, tx.from, tx.nonce);
      ghost var free := Free(tx);
      r := Enter(tx, local, isLocal);
      forall a
        ensures Shed(old(At(pending, a)), At(pending, a), old(PN(a)), PN(a))
      {
        ShedChain(old(At(pending, a)), old@roomy(At(pending, a)), At(pending, a), old(PN(a)), old@roomy(PN(a)), PN(a));
      }
      AdmittedSets(old(book.txs), old(book.all.remotes), gone, old(Holder(tx)), old@roomy(Holder(tx)), tx, book.txs,
                   old(Free(tx)), free);
      AdmittedCost(old(book.txs), gone, old(Holder(tx)), old@roomy(Holder(tx)), tx, book.txs, Limit(), old(Excess()),
                   old@roomy(book.all.slots), book.all.slots);
      HolderPooled(pending, queue, book.txs, tx.from, tx.nonce);
    }

    /** Give a valid transaction its nonce, once there is room. */
    method Enter(tx: Tx, local: bool, isLocal: bool) returns (r: Outcome)
      requires Sound() && book.leaving == {} && tx !in book.txs && S(tx.from) <= tx.nonce
      modifies this`pending, this`queue, this`locals, book, book.all, book.priced
      ensures Sound() && book.leaving == {} && KeepsPromises() && StepsBack() && book.SameFee()
      ensures if old(Free(tx)) then r == Ok(old(Holder(tx)).Some?) && Placed(tx)
              else r == Failed(ReplaceUnderpriced) && pending == old(pending) && queue == old(queue)
      ensures book.txs == if r.Ok? then old(book.txs) - HolderSet(old(Holder(tx))) + {tx} else old(book.txs)
      ensures r.Failed? ==> book.all.remotes == old(book.all.remotes)
      ensures book.all.remotes <= old(book.all.remotes) + {tx}
      ensures r.Ok? && !local ==>
                book.all.remotes == old(book.all.remotes) - HolderSet(old(Holder(tx))) + (if isLocal then {} else {tx})
      ensures book.all.slots <= old(book.all.slots) + NumSlots(tx)
      ensures locals
              == if local && r.Ok? && tx.nonce !in At(pending, tx.from) then old(locals) + {tx.from} else old(locals)
      ensures Calm()
    {
      hide Agree, TxBook.Valid, TxPool.RestsAt, TxPool.ResetsAt, TxPool.AheadAt, Shed, TxPool.PN, Outbids;
      hide SlotsOf, NumSlots;
      book.Accounts();
      SlotsSwapped(book.txs, HolderSet(Holder(tx)), tx);
      if tx.from in pending && tx.nonce in pending[tx.from].items {
        r := ReplacePending(tx, isLocal);
        SameKeysKeep();
      } else {
        r := AddQueued(tx, isLocal);
        if r.Ok? && local && tx.from !in locals {
          locals := locals + {tx.from};
          book.RemoteToLocals(locals);
        }
      }
      SameKeysShed();
      forall a
        ensures CalmAt(old(At(pending, a)), At(pending, a), old(At(queue, a)), At(queue, a), old(PN(a)), PN(a))
      {
      }
      book.Accounts();
    }

    lemma ShedAll()
      ensures forall a :: Shed(At(pending, a), At(pending, a), PN(a), PN(a))
    {
    }

    twostate lemma SameKeysShed()
      requires forall a :: At(pending, a).Keys == old(At(pending, a)).Keys
      requires pendingNonces == old(pendingNonces) && forall a :: PN(a) == old(PN(a))
      ensures StepsBack()
    {
      forall a
        ensures Shed(old(At(pending, a)), At(pending, a), old(PN(a)), PN(a))
      {
        ShedNone(old(At(pending, a)), At(pending, a), PN(a));
      }
    }

    /** No nonce left a list, none came into pending, and no virtual nonce moved. */
    twostate predicate Calm()
      reads this`pending, this`queue, this`pendingNonces, pendingNonces
    {
      forall a :: CalmAt(old(At(pending, a)), At(pending, a), old(At(queue, a)), At(queue, a), old(PN(a)), PN(a))
    }

    /** Nothing moved at all. */
    twostate predicate Untouched()
      reads this`pending, this`queue, this`locals, this`pendingNonces, pendingNonces, book, book.all
    {
      && pending == old(pending) && queue == old(queue) && locals == old(locals) && book.txs == old(book.txs)
      && book.all.remotes == old(book.all.remotes) && forall a :: PN(a) == old(PN(a))
    }

    /** Why a new transaction is refused whoever holds its nonce. */
    ghost function Refusal(tx: Tx, local: bool): Option<PoolError>
      reads this, book, book.all, book.priced
    {
      if Validate(tx, IsLocal(tx, local)).Some? then Validate(tx, IsLocal(tx, local))
      else Turned(tx, IsLocal(tx, local))
    }

    /** The nonce of tx is free, or tx outbids its holder. */
    ghost predicate Free(tx: Tx)
      reads this`pending, this`queue
    {
      Holder(tx).Some? ==> Outbids(tx, Holder(tx).value, config.priceBump)
    }

    /** What validation says of a transaction. */
    function Invalid(tx: Tx, local: bool): Option<PoolError>
      reads this
    {
      Validate(tx, IsLocal(tx, local))
    }

    ghost function Invalids(txs: seq<Tx>, local: bool): seq<Option<PoolError>>
      reads this
    {
      Checks(txs, local, Rule(), locals)
    }

    /** A full pool takes this remote transaction, which is valid by the given rules, at the expense of others. */
    ghost predicate Displaces(tx: Tx, rules: Rules)
      reads this`pending, this`queue, this`locals, book, book.all, book.priced
    {
      && tx !in book.txs && tx.from !in locals && Acceptable(tx, false, rules)
      && !HasRoom(NumSlots(tx)) && Turned(tx, false).None? && Free(tx)
    }

    /** What is pooled, and what of it is remote. */
    ghost function Pool(): Pooled
      reads book, book.all
    {
      Pooled(book.txs, book.all.remotes)
    }

    ghost function TermsOf(local: bool): Terms
      reads this`locals, book.priced
    {
      Terms(Limit(), config.priceBump, book.priced.baseFee, local, locals)
    }

    lemma TurnedAway(tx: Tx, local: bool)
      requires Sound() && book.leaving == {} && Invalid(tx, local).None? && Turned(tx, IsLocal(tx, local)).Some?
      ensures DoorClosed(Pool(), tx, TermsOf(local)) && !HasRoom(NumSlots(tx))
    {
      hide Agree, TxBook.Valid, TxBook.Outpriced, TxBook.Evictable, NoneBelow, SlotsOf, NumSlots;
      book.Accounts();
      book.PricesMean(tx);
    }

    /** Add the next transaction of a batch. */
    method AddNext(tx: Tx, local: bool) returns (r: Outcome)
      requires Sound() && book.leaving == {}
      modifies this`pending, this`queue, this`locals, book, book.all, book.priced, pendingNonces
      ensures book.SameFee()
      ensures Sound() && book.leaving == {} && KeepsPromises() && StepsBack() && (!local ==> locals == old(locals))
      ensures old(HasRoom(NumSlots(tx))) ==>
                && r == Judge(old(book.txs), tx, old(Invalid(tx, local)), config.priceBump)
                && book.txs == Swapped(old(book.txs), tx, r) && Calm()
                && book.all.slots <= old(book.all.slots) + NumSlots(tx)
      ensures old(Invalid(tx, local)).Some? ==> r == Failed(AlreadyKnown) || r.Error() == old(Invalid(tx, local))
      ensures book.txs <= old(book.txs) + {tx} && (r.Failed? ==> book.txs <= old(book.txs))
      ensures book.all.remotes <= old(book.all.remotes) + {tx}
      ensures old(book.txs) - book.txs - Rivals(old(book.txs), tx) <= old(book.all.remotes)
      ensures Spends(old(book.txs), book.txs, Rivals(old(book.txs), tx), old(Excess()), Excess(), NumSlots(tx))
      ensures Turn(old(Pool()), Pool(), tx, old(Invalid(tx, local)), old(TermsOf(local)))
      ensures !local && old(Displaces(tx, Rule())) ==> r.Ok? && old(book.txs) - book.txs != {}
    {
      hide Agree, TxBook.Valid, TxPool.RestsAt, TxPool.ResetsAt, TxPool.AheadAt, TxPool.PN, At, CalmAt, Shed;
      hide TxPool.Placed, HolderIn, Judge, Check, Acceptable, Outbids, Rivals, Spends, Over, DoorClosed;
      hide TxPool.Turned, SlotsOf, NumSlots;
      RivalsHold(pending, queue, book.txs, tx);
      JudgeHeld(book.txs, tx, Invalid(tx, local), config.priceBump, Holder(tx));
      book.Accounts();
      if Invalid(tx, local).None? && Turned(tx, IsLocal(tx, local)).Some? { TurnedAway(tx, local); }
      ghost var held := Holder(tx);
      r := Add(tx, local);
      if tx !in old(book.txs) && old(!HasRoom(NumSlots(tx)) && Refusal(tx, local).None?) {
        TurnHeld(old(Pool()), Pool(), tx, old(TermsOf(local)), held);
      }
    }

    /** Add a batch; the senders of newly queued transactions become dirty. */
    method AddAll(txs: seq<Tx>, local: bool) returns (dirty: set<Address>, results: seq<Outcome>)
      requires Sound() && book.leaving == {}
      modifies this`pending, this`queue, this`locals, book, book.all, book.priced, pendingNonces
      ensures Sound() && book.leaving == {} && KeepsPromises() && StepsBack() && book.SameFee()
      ensures |results| == |txs| && Reported(old(book.txs), book.txs, txs, old(Invalids(txs, local)), results)
      // room or not, each member had its turn
      ensures Leads(old(Pool()), Pool(), txs, old(Invalids(txs, local)), old(TermsOf(local)), |txs|)
      // what leaves and has no rival in the batch was remote, and there are at most as many as the batch has slots
      ensures Displaced(old(book.txs), book.txs, txs) <= old(book.all.remotes)
      ensures Costs(Displaced(old(book.txs), book.txs, txs), old(Excess()), Excess(), SlotSum(txs))
      ensures Dirtied(dirty, txs, results)
      ensures !local ==> locals == old(locals)
      ensures txs == [] ==> pending == old(pending) && queue == old(queue) && book.txs == old(book.txs) && Calm()
      // with room for all of them, every answer and what is pooled afterwards is decided by what was pooled before
      ensures old(HasRoom(SlotSum(txs))) ==>
                Answered(old(book.txs), book.txs, txs, old(Invalids(txs, local)), config.priceBump, results)
      // nothing is lost and every valid one finds its nonce held
      ensures old(HasRoom(SlotSum(txs))) ==> Calm()
      ensures old(HasRoom(SlotSum(txs))) ==>
                forall i :: 0 <= i < |txs| && old(Invalid(txs[i], local)).None? ==> Holder(txs[i]).Some?
      // a full pool that takes the first of a new batch loses something for good
      ensures txs != [] && !local && old(Displaces(txs[0], Rule()))
              && old(book.txs) !! SetOf(txs) ==>
                old(book.txs) - book.txs != {}
    {
      hide Agree, TxBook.Valid, TxPool.RestsAt, TxPool.ResetsAt, TxPool.AheadAt, TxPool.PN, At, CalmAt, SlotSum, Shed;
      hide HolderIn, Answered, Reported, Judge, Swapped, TxPool.Displaces, Check, Acceptable, Displaced, Rivals;
      hide Costs, Over, Spends, SlotsOf, NumSlots, Dirtied, Turn, Leads, Progress;
      dirty, results := {}, [];
      ghost var invalids := Invalids(txs, local);
      ghost var displaces := txs != [] && !local && Displaces(txs[0], Rule());
      CalmAll();
      ShedAll();
      NoneFreed();
      AnsweredNone(book.txs, txs, invalids, config.priceBump);
      NoProgress(Pool(), Excess(), txs, invalids, TermsOf(local));
      for i := 0 to |txs|
        invariant Sound() && book.leaving == {} && KeepsPromises() && StepsBack() && |results| == i
        invariant Progress(old(Pool()), Pool(), old(Excess()), Excess(), txs, invalids, old(TermsOf(local)), results,
                           dirty)
        invariant book.SameFee() && (!local ==> locals == old(locals))
        invariant i == 0 ==> pending == old(pending) && queue == old(queue) && book.txs == old(book.txs) && Calm()
        invariant old(HasRoom(SlotSum(txs))) ==> Calm() && book.all.slots <= old(book.all.slots) + SlotSum(txs[..i])
        invariant old(HasRoom(SlotSum(txs))) ==>
                    Answered(old(book.txs), book.txs, txs, invalids, config.priceBump, results)
        invariant i == 0 && displaces ==> Displaces(txs[0], Rule())
        invariant i > 0 && displaces && old(book.txs) !! SetOf(txs) ==> old(book.txs) - book.txs != {}
      {
        SlotsSoFar(txs, i);
        assert Invalid(txs[i], local) == invalids[i];
        assert old(HasRoom(SlotSum(txs))) ==> HasRoom(NumSlots(txs[i]));
        label turn:
        var r := AddNext(txs[i], local);
        forall a
          ensures Shed(old(At(pending, a)), At(pending, a), old(PN(a)), PN(a))
        {
          ShedChain(old(At(pending, a)), old@turn(At(pending, a)), At(pending, a), old(PN(a)), old@turn(PN(a)), PN(a));
        }
        if old(HasRoom(SlotSum(txs))) {
          AnsweredNext(old(book.txs), old@turn(book.txs), txs, invalids, config.priceBump, results, r);
          forall a
            ensures CalmAt(old(At(pending, a)), At(pending, a), old(At(queue, a)), At(queue, a), old(PN(a)), PN(a))
          {
            CalmChain(old(At(pending, a)), old@turn(At(pending, a)), At(pending, a), old(At(queue, a)),
                      old@turn(At(queue, a)), At(queue, a), old(PN(a)), old@turn(PN(a)), PN(a));
          }
        }
        StillLost(old(book.txs), old@turn(book.txs), book.txs, txs, i);
        ProgressNext(old(Pool()), old@turn(Pool()), Pool(), old(Excess()), old@turn(Excess()), Excess(), txs, invalids,
                     old(TermsOf(local)), old@turn(TermsOf(local)), results, dirty, r);
        results := results + [r];
        if r == Ok(false) { dirty := dirty + {txs[i].from}; }
      }
      assert txs[..|txs|] == txs && invalids[..|txs|] == invalids;
      ProgressMade(old(Pool()), Pool(), old(Excess()), Excess(), txs, invalids, old(TermsOf(local)), results, dirty);
      forall i | 0 <= i < |txs| && invalids[i].None? && old(HasRoom(SlotSum(txs)))
        ensures Holder(txs[i]).Some?
      {
        RivalsHold(pending, queue, book.txs, txs[i]);
        AnsweredHeld(old(book.txs), book.txs, txs, invalids, config.priceBump, results, i);
      }
    }

    lemma CalmAll()
      ensures forall a :: CalmAt(At(pending, a), At(pending, a), At(queue, a), At(queue, a), PN(a), PN(a))
    {
    }

    /** Changing no pending nonce keeps the promises. */
    twostate lemma SameKeysKeep()
      requires forall a :: At(pending, a).Keys == old(At(pending, a)).Keys
      requires queue == old(queue) && currentState == old(currentState)
      requires pendingNonces == old(pendingNonces) && forall a :: PN(a) == old(PN(a))
      ensures KeepsPromises()
    {
      forall a
        ensures old(RestsAt(a)) ==> RestsAt(a)
        ensures old(ResetsAt(a)) ==> ResetsAt(a)
        ensures old(AheadAt(a)) ==> AheadAt(a)
      {
        SameKeys(old(At(pending, a)), At(pending, a), S(a), PN(a));
      }
    }

    // ----- promoting -----

    /** Past the reinjection of a reset: no gap from the state nonce on, and the virtual nonce, once past the
        state, is exact and covers only what can be paid for. */
    ghost predicate FollowsAt(a: Address)
      reads this`pending, this`currentState, this`currentMaxGas, this`pendingNonces, pendingNonces
    {
      && Solid(At(pending, a), S(a))
      && Following(At(pending, a), S(a), PN(a), currentState.balance(a), currentMaxGas)
    }

    /** What of an account's queue is neither too old nor too dear. */
    function Usable(a: Address): Items
      reads this`queue, this`currentState, this`currentMaxGas
    {
      UsableOf(At(queue, a), S(a), currentState.balance(a), currentMaxGas)
    }

    /** An executable transaction of the account is left in its queue. */
    ghost predicate LeftAt(a: Address)
      reads this`pending, this`queue, this`currentState
    {
      Left(At(pending, a), At(queue, a), S(a))
    }

    /** What one turn of promoteExecutables does to an account. */
    twostate predicate PromotedAt(a: Address)
      reads this`pending, this`queue, this`currentState, this`currentMaxGas, this`locals, this`pendingNonces,
            pendingNonces
    {
      Promoted(old(At(pending, a)), At(pending, a), old(At(queue, a)), At(queue, a), S(a), old(PN(a)), PN(a),
               currentState.balance(a), currentMaxGas, a in locals, config.accountQueue)
    }

    /** Cut the queue of an account down to l and forget what it loses. */
    method ShrinkQueue(a: Address, l: List) returns (count: nat)
      requires Sound() && a in queue && PartOf(l, queue[a])
      modifies this`queue, book, book.all
      ensures Sound() && book.leaving <= old(book.leaving) && queue == Shelve(old(queue), a, l) && book.Fewer()
      ensures book.txs == old(book.txs) - Txs(old(queue)[a].items - l.items.Keys)
    {
      hide Agree, TxBook.Valid;
      var gone := queue[a].items - l.items.Keys;
      ShrinkQueued(pending, queue, book.txs, a, l);
      queue := Shelve(queue, a, l);
      book.RemoveAll(gone);
      count := |gone|;
    }

    /** Move the run of an account that is ready at its virtual nonce from queue to pending. What waits elsewhere stays,
        be it executable or not. */
    method PromoteReady(a: Address) returns (promoted: seq<Tx>)
      requires Sound() && book.leaving == {}
      requires Fresh(At(queue, a), S(a)) && Paid(At(queue, a), S(a), currentState.balance(a), currentMaxGas)
      requires Solid(At(pending, a), S(a)) && (PN(a) <= S(a) || Exact(At(pending, a), S(a), PN(a)))
      modifies this`pending, this`queue, book, book.all, book.priced, pendingNonces
      ensures book.SameFee()
      ensures Sound() && book.leaving == {} && book.txs == old(book.txs) && book.all.remotes == old(book.all.remotes)
      ensures Moved(old(At(pending, a)), At(pending, a), old(At(queue, a)), At(queue, a), old(PN(a)), PN(a))
      ensures PN(a) !in At(queue, a) && Within(At(queue, a), old(At(queue, a)))
      ensures old(Exact(At(pending, a), S(a), PN(a))) ==> Exact(At(pending, a), S(a), PN(a))
      ensures old(Fresh(At(pending, a), S(a))) ==> Fresh(At(pending, a), S(a))
      ensures old(FollowsAt(a)) ==> FollowsAt(a)
      ensures forall x :: x != a ==>
                At(pending, x) == old(At(pending, x)) && At(queue, x) == old(At(queue, x)) && PN(x) == old(PN(x))
    {
      hide Agree, TxBook.Valid, Range, Exact, Fresh, Solid, Paid, Following, Readies, RunEnd;
      promoted := [];
      var start := pendingNonces.Get(a);
      var q := At(queue, a);
      var readies := Readies(q, start);
      ghost var m := At(pending, a);
      ReadiesStop(m, q, start);
      if a !in queue || readies == map[] {
        return;
      }
      ApartAt(pending, queue, book.txs, a);
      ReadyStartsAtNonce(m, q, S(a), start);
      ReadyPart(q, start, S(a), currentState.balance(a), currentMaxGas);
      TakeReady(a, start, readies);
      promoted := PromoteRun(a, readies, start, RunEnd(q, start));
      PromotedFollows(m, readies, S(a), start, RunEnd(q, start), currentState.balance(a), currentMaxGas);
    }

    /** Take the ready run off the queue. */
    method TakeReady(a: Address, start: nat, readies: Items)
      requires Sound() && a in queue && readies == Readies(queue[a].items, start)
      requires queue[a].items - (queue[a].items - readies.Keys).Keys == readies
      modifies this`queue
      ensures Agree(pending, queue, book.txs, a, readies)
      ensures At(queue, a) == old(At(queue, a)) - readies.Keys
      ensures forall x :: x != a ==> At(queue, x) == old(At(queue, x))
    {
      hide Agree, TxBook.Valid, Readies;
      NothingInFlight(pending, queue, book.txs, 0, a);
      ListsFit(pending, queue, book.txs, a);
      OperationsLeaveParts(queue[a], start, 0, 0);
      TakeFromQueue(pending, queue, book.txs, a, queue[a].Ready(start));
      queue := Shelve(queue, a, queue[a].Ready(start));
    }

    /** Promote the run start..end-1 in nonce order; none of its nonces can be taken. */
    method PromoteRun(a: Address, run: Items, start: nat, end: nat) returns (promoted: seq<Tx>)
      requires book.Valid() && book.leaving == {} && Agree(pending, queue, book.txs, a, run)
      requires Range(run, start, end) && S(a) <= start <= end && PN(a) == start
      requires Exact(At(pending, a), S(a), start)
      modifies this`pending, book, book.all, book.priced, pendingNonces
      ensures book.Valid() && book.leaving == {} && Settled(pending, queue, book.txs) && book.SameFee()
      ensures book.txs == old(book.txs) && book.all.remotes == old(book.all.remotes)
      ensures At(pending, a) == old(At(pending, a)) + run && PN(a) == end && Exact(At(pending, a), S(a), end)
      ensures |promoted| == end - start && Rising(promoted, run, start)
      ensures forall x :: x != a ==> At(pending, x) == old(At(pending, x)) && PN(x) == old(PN(x))
    {
      hide Agree, TxBook.Valid, Range, Exact, At, Parted, TxPool.PN, Rising, Holds;
      var left: Items, k: nat := run, start;
      ghost var done: Items := map[];
      promoted := [];
      RisingNone(run, start);
      PartedStart(run, old(At(pending, a)));
      while k < end
        invariant start <= k <= end && book.Valid() && book.leaving == {}
        invariant book.txs == old(book.txs) && book.all.remotes == old(book.all.remotes) && book.SameFee()
        invariant Agree(pending, queue, book.txs, a, left) && Range(left, k, end)
        invariant Parted(run, left, done) && At(pending, a) == old(At(pending, a)) + done
        invariant PN(a) == k && Exact(At(pending, a), S(a), k)
        invariant |promoted| == k - start && Rising(promoted, run, start)
        invariant forall x :: x != a ==> At(pending, x) == old(At(pending, x)) && PN(x) == old(PN(x))
      {
        RunTurn(pending, queue, book.txs, a, run, left, done, old(At(pending, a)), promoted, start, k, end);
        PromoteOne(a, left, k);
        promoted := promoted + [left[k]];
        left, done, k := left - {k}, done[k := left[k]], k + 1;
      }
      RangeEmpty(left, end);
      PartedDone(run, done);
      NothingInFlight(pending, queue, book.txs, a, 0);
    }

    method PromoteOne(a: Address, left: Items, k: nat)
      requires book.Valid() && book.leaving == {} && Agree(pending, queue, book.txs, a, left) && k in left
      requires S(a) <= k && PN(a) == k && Exact(At(pending, a), S(a), k)
      modifies this`pending, book, book.all, book.priced, pendingNonces
      ensures book.Valid() && book.leaving == {} && Agree(pending, queue, book.txs, a, left - {k}) && book.SameFee()
      ensures book.txs == old(book.txs) && book.all.remotes == old(book.all.remotes)
      ensures At(pending, a) == old(At(pending, a))[k := left[k]] && PN(a) == k + 1
              && Exact(At(pending, a), S(a), k + 1)
      ensures forall x :: x != a ==> At(pending, x) == old(At(pending, x)) && PN(x) == old(PN(x))
    {
      hide Agree, TxBook.Valid, Exact;
      var tx := left[k];
      FlightKnown(pending, queue, book.txs, a, left, k);
      DropOne(pending, queue, book.txs, a, left, tx);
      ExactNext(At(pending, a), S(a), k, tx);
      var inserted := PromoteTx(tx, left - {k});
    }

    /** Drop what is too old or cannot be paid for from the queue of an account. */
    method CleanQueue(a: Address) returns (count: nat)
      requires Sound() && book.leaving == {}
      modifies this`queue, book, book.all
      ensures Sound() && book.leaving == {} && book.Fewer()
      ensures At(queue, a) == old(Usable(a))
      ensures Fresh(At(queue, a), S(a)) && Paid(At(queue, a), S(a), currentState.balance(a), currentMaxGas)
      ensures forall x :: x != a ==> At(queue, x) == old(At(queue, x))
    {
      hide Agree, TxBook.Valid, Fresh, Paid, AtLeast, Payable, Within;
      UsableFresh(At(queue, a), S(a), currentState.balance(a), currentMaxGas);
      count := ForwardQueue(a);
      var drops := FilterQueue(a);
      count := count + drops;
    }

    /** Drop what is too old from the queue of an account. */
    method ForwardQueue(a: Address) returns (count: nat)
      requires Sound() && book.leaving == {}
      modifies this`queue, book, book.all
      ensures Sound() && book.leaving == {} && book.Fewer()
      ensures At(queue, a) == AtLeast(old(At(queue, a)), S(a))
      ensures forall x :: x != a ==> At(queue, x) == old(At(queue, x))
    {
      hide Agree, TxBook.Valid, PartOf, AtLeast, Txs, List.Valid;
      count := 0;
      book.Accounts();
      NoneUsable(S(a), 0, 0);
      if a in queue {
        ListsFit(pending, queue, book.txs, a);
        OperationsLeaveParts(queue[a], S(a), 0, 0);
        count := ShrinkQueue(a, queue[a].Forward(S(a)));
      }
    }

    /** Drop what cannot be paid for from the queue of an account. */
    method FilterQueue(a: Address) returns (count: nat)
      requires Sound() && book.leaving == {}
      modifies this`queue, book, book.all
      ensures Sound() && book.leaving == {} && book.Fewer()
      ensures At(queue, a) == Payable(false, old(At(queue, a)), currentState.balance(a), currentMaxGas)
      ensures forall x :: x != a ==> At(queue, x) == old(At(queue, x))
    {
      hide Agree, TxBook.Valid, PartOf, Payable, Txs, List.Valid, List.Filter;
      count := 0;
      book.Accounts();
      NoneUsable(0, currentState.balance(a), currentMaxGas);
      if a in queue {
        ListsFit(pending, queue, book.txs, a);
        OperationsLeaveParts(queue[a], 0, currentState.balance(a), currentMaxGas);
        FilterIgnoresCaps(queue[a], currentState.balance(a), currentMaxGas);
        count := ShrinkQueue(a, queue[a].Filter(currentState.balance(a), currentMaxGas));
      }
    }

    /** Clean the queue of an account and move its ready run. */
    method PromoteUsable(a: Address) returns (promoted: seq<Tx>, count: nat)
      requires Sound() && book.leaving == {} && (RestsAt(a) || FollowsAt(a))
      modifies this`pending, this`queue, book, book.all, book.priced, pendingNonces
      ensures Sound() && book.leaving == {} && book.Fewer()
      ensures ServedAt(a)
      ensures Moved(old(At(pending, a)), At(pending, a), old(Usable(a)), At(queue, a), old(PN(a)), PN(a))
      ensures old(RestsAt(a)) ==> RestsAt(a)
      ensures old(FollowsAt(a)) ==> FollowsAt(a)
      ensures forall x :: x != a ==>
                At(pending, x) == old(At(pending, x)) && At(queue, x) == old(At(queue, x)) && PN(x) == old(PN(x))
    {
      hide Agree, TxBook.Valid, Range, Exact, Fresh, Solid, Paid, Following, PartOf, At, Moved;
      hide TxPool.PN, TxPool.Usable;
      AtRest(At(pending, a), S(a), PN(a));
      if RestsAt(a) { ExactIsSolid(At(pending, a), S(a), PN(a)); }
      FollowingEither(At(pending, a), S(a), PN(a), currentState.balance(a), currentMaxGas);
      count := CleanQueue(a);
      ghost var cleaned := At(queue, a);
      promoted := PromoteReady(a);
      PartFresh(cleaned, At(queue, a), S(a));
      AtRest(At(pending, a), S(a), PN(a));
    }

    /** One turn of promoteExecutables. */
    method PromoteAccount(a: Address) returns (promoted: seq<Tx>)
      requires Sound() && book.leaving == {} && (RestsAt(a) || FollowsAt(a))
      modifies this`pending, this`queue, book, book.all, book.priced, pendingNonces
      ensures Sound() && book.leaving == {} && book.Fewer() && PromotedAt(a) && ServedAt(a)
      ensures a !in locals ==> |At(queue, a)| <= config.accountQueue
      ensures old(RestsAt(a)) ==> RestsAt(a)
      ensures old(FollowsAt(a)) ==> FollowsAt(a)
      ensures forall x :: x != a ==>
                At(pending, x) == old(At(pending, x)) && At(queue, x) == old(At(queue, x)) && PN(x) == old(PN(x))
    {
      hide Agree, TxBook.Valid, At, Moved, Allowed, TxPool.PN, UsableOf, TxPool.RestsAt, TxPool.FollowsAt, Promoted;
      hide TxPool.ServedAt;
      var count;
      promoted, count := PromoteUsable(a);
      ghost var waiting := At(queue, a);
      var caps := CapQueue(a);
      PromotedInSteps(old(At(pending, a)), At(pending, a), old(At(queue, a)), waiting, At(queue, a), S(a), old(PN(a)),
                      PN(a), currentState.balance(a), currentMaxGas, a in locals, config.accountQueue);
      book.Removed(count + caps);
    }

    /** The queue of an account is fresh and holds nothing at the virtual nonce. */
    ghost predicate ServedAt(a: Address)
      reads this`queue, this`currentState, this`pendingNonces, pendingNonces
    {
      Fresh(At(queue, a), S(a)) && PN(a) !in At(queue, a)
    }

    /** Drop the highest nonces of an account that is not local until its queue fits. */
    method CapQueue(a: Address) returns (count: nat)
      requires Sound() && book.leaving == {} && ServedAt(a)
      modifies this`queue, book, book.all
      ensures Sound() && book.leaving == {} && book.Fewer() && ServedAt(a)
      ensures At(queue, a) == Allowed(old(At(queue, a)), a in locals, config.accountQueue)
      ensures a !in locals ==> |At(queue, a)| <= config.accountQueue
      ensures old(RestsAt(a)) ==> RestsAt(a)
      ensures forall x :: x != a ==> At(queue, x) == old(At(queue, x))
    {
      hide Agree, TxBook.Valid, Fresh, PartOf, Lowest, Within, Txs, List.Valid, TxPool.PN, Range, Shelve;
      count := 0;
      book.Accounts();
      CapKeeps(At(queue, a), config.accountQueue, S(a), PN(a));
      if a !in locals && a in queue {
        ListsFit(pending, queue, book.txs, a);
        OperationsLeaveParts(queue[a], config.accountQueue, 0, 0);
        count := ShrinkQueue(a, queue[a].Cap(config.accountQueue));
      }
    }

    /** Promote what is ready, account by account. */
    method PromoteExecutables(accounts: seq<Address>) returns (promoted: seq<Tx>)
      requires Sound() && book.leaving == {} && Distinct(accounts)
      requires forall a :: a in accounts ==> RestsAt(a) || FollowsAt(a)
      modifies this`pending, this`queue, book, book.all, book.priced, pendingNonces
      ensures Sound() && book.leaving == {} && book.Fewer()
      ensures forall a :: a in accounts ==> PromotedAt(a) && ServedAt(a)
      ensures forall a :: a !in accounts ==>
                At(pending, a) == old(At(pending, a)) && At(queue, a) == old(At(queue, a)) && PN(a) == old(PN(a))
      ensures forall a :: old(RestsAt(a)) ==> RestsAt(a)
      ensures forall a :: old(FollowsAt(a)) ==> FollowsAt(a)
    {
      hide Agree, TxBook.Valid, At, TxPool.PN, Promoted, Fresh, Range, Solid, Following;
      book.Accounts();
      promoted := [];
      for i := 0 to |accounts|
        invariant Sound() && book.leaving == {} && book.Fewer()
        invariant forall a :: a in accounts[..i] ==> PromotedAt(a) && ServedAt(a)
        invariant forall a :: a !in accounts[..i] ==>
                    At(pending, a) == old(At(pending, a)) && At(queue, a) == old(At(queue, a)) && PN(a) == old(PN(a))
        invariant forall a :: old(RestsAt(a)) ==> RestsAt(a)
        invariant forall a :: old(FollowsAt(a)) ==> FollowsAt(a)
      {
        var b := accounts[i];
        DistinctNext(accounts, i);
        assert old(RestsAt(b)) || old(FollowsAt(b));
        label turn:
        var more := PromoteAccount(b);
        assert PromotedAt(b) by {
          assert old@turn(At(pending, b)) == old(At(pending, b)) && old@turn(At(queue, b)) == old(At(queue, b));
          assert old@turn(PN(b)) == old(PN(b)) && PromotedAt@turn(b);
        }
        forall a | a in accounts[..i]
          ensures PromotedAt(a) && ServedAt(a)
        {
          assert At(pending, a) == old@turn(At(pending, a)) && At(queue, a) == old@turn(At(queue, a));
          assert PN(a) == old@turn(PN(a));
        }
        promoted := promoted + more;
      }
      assert accounts[..|accounts|] == accounts;
    }

    // ----- demoting -----

    /** After demotion: pending starts at the state nonce without gaps, and a virtual nonce past it is exact. */
    ghost predicate SteadyAt(a: Address)
      reads this`pending, this`queue, this`currentState, this`pendingNonces, pendingNonces
    {
      && Fresh(At(pending, a), S(a)) && Solid(At(pending, a), S(a)) && Fresh(At(queue, a), S(a))
      && (PN(a) <= S(a) || Exact(At(pending, a), S(a), PN(a)))
    }

    /** What one turn of demoteUnexecutables does to an account. */
    twostate predicate DemotedAt(a: Address)
      reads this`pending, this`queue, this`currentState, this`currentMaxGas
    {
      Demoted(old(At(pending, a)), At(pending, a), old(At(queue, a)), At(queue, a), S(a), currentState.balance(a),
              currentMaxGas)
    }

    /** Cut a pending list down to l and forget what it loses. */
    method ShrinkPending(a: Address, l: List)
      requires Sound() && a in pending && PartOf(l, pending[a])
      modifies this`pending, book, book.all
      ensures Sound() && book.leaving <= old(book.leaving) && pending == Shelve(old(pending), a, l) && book.Fewer()
      ensures book.txs == old(book.txs) - Txs(old(pending)[a].items - l.items.Keys)
    {
      hide Agree, TxBook.Valid;
      PoolStructure.ShrinkPending(pending, queue, book.txs, a, l);
      var gone := pending[a].items - l.items.Keys;
      pending := Shelve(pending, a, l);
      book.RemoveAll(gone);
    }

    /** Drop what cannot be paid for from pending and postpone what came after it. */
    method FilterPending(a: Address)
      requires Sound() && book.leaving == {} && a in pending
      modifies this`pending, this`queue, book, book.all, book.priced
      ensures Sound() && book.leaving == {} && book.Fewer()
      ensures At(pending, a) == Payable(true, old(At(pending, a)), currentState.balance(a), currentMaxGas)
      ensures At(queue, a) == old(At(queue, a))
              + Invalidated(old(At(pending, a)), currentState.balance(a), currentMaxGas)
      ensures forall x :: x != a ==> At(pending, x) == old(At(pending, x)) && At(queue, x) == old(At(queue, x))
    {
      hide Agree, TxBook.Valid, Payable, Dropped, List.Filter, Txs;
      var balance := currentState.balance(a);
      var l := pending[a].Filter(balance, currentMaxGas);
      var gone := Dropped(pending[a].items, balance, currentMaxGas);
      var invalids := pending[a].items - gone.Keys - l.items.Keys;
      FilterPendingList(pending, queue, book.txs, a, balance, currentMaxGas);
      pending := Shelve(pending, a, l);
      book.RemoveAll(gone);
      Postpone(a, invalids);
      NothingInFlight(pending, queue, book.txs, a, 0);
    }

    /** Drop what is too old or cannot be paid for from pending and postpone what came after it. */
    method CleanPending(a: Address)
      requires Sound() && book.leaving == {} && a in pending
      modifies this`pending, this`queue, book, book.all, book.priced
      ensures Sound() && book.leaving == {} && book.Fewer()
      ensures At(pending, a)
              == Payable(true, AtLeast(old(At(pending, a)), S(a)), currentState.balance(a), currentMaxGas)
      ensures At(queue, a) == old(At(queue, a))
                              + Invalidated(AtLeast(old(At(pending, a)), S(a)), currentState.balance(a), currentMaxGas)
      ensures forall x :: x != a ==> At(pending, x) == old(At(pending, x)) && At(queue, x) == old(At(queue, x))
    {
      hide Agree, TxBook.Valid, Payable, AtLeast, PartOf, Within, Invalidated, Shelve, Txs, List.Valid;
      ListsFit(pending, queue, book.txs, a);
      OperationsLeaveParts(pending[a], S(a), 0, 0);
      EmptyPayable(currentState.balance(a), currentMaxGas);
      PartedStart(map[], At(queue, a));
      ShrinkPending(a, pending[a].Forward(S(a)));
      if a in pending {
        FilterPending(a);
      }
    }

    /** One turn of demoteUnexecutables. */
    method DemoteAccount(a: Address)
      requires Sound() && book.leaving == {} && a in pending
      modifies this`pending, this`queue, book, book.all, book.priced
      ensures Sound() && book.leaving == {} && book.Fewer() && DemotedAt(a)
      ensures forall x :: x != a ==> At(pending, x) == old(At(pending, x)) && At(queue, x) == old(At(queue, x))
    {
      hide Agree, TxBook.Valid, Payable, AtLeast, At, Invalidated;
      CleanPending(a);
      CloseGap(a);
    }

    /** If the first pending nonce is not the state nonce, postpone the whole list. */
    method CloseGap(a: Address)
      requires Sound() && book.leaving == {}
      modifies this`pending, this`queue, book, book.all, book.priced
      ensures book.SameFee()
      ensures Sound() && book.leaving == {} && book.txs == old(book.txs) && book.all.remotes == old(book.all.remotes)
      ensures if S(a) in old(At(pending, a)) || old(At(pending, a)) == map[]
              then pending == old(pending) && queue == old(queue)
              else At(pending, a) == map[] && At(queue, a) == old(At(queue, a)) + old(At(pending, a))
      ensures forall x :: x != a ==> At(pending, x) == old(At(pending, x)) && At(queue, x) == old(At(queue, x))
    {
      hide Agree, TxBook.Valid, Lowest;
      if At(pending, a) != map[] && S(a) !in pending[a].items {
        TakeAllPending(pending, queue, book.txs, a);
        var gapped := pending[a].items;
        pending := Shelve(pending, a, pending[a].Cap(0));
        Postpone(a, gapped);
        NothingInFlight(pending, queue, book.txs, a, 0);
      }
    }

    /** Drop and postpone what the new state makes unexecutable, account by account. */
    method DemoteUnexecutables()
      requires Sound() && book.leaving == {}
      modifies this`pending, this`queue, book, book.all, book.priced
      ensures Sound() && book.leaving == {} && book.Fewer() && forall a :: DemotedAt(a)
    {
      hide Agree, TxBook.Valid, Demoted, At;
      book.Accounts();
      forall a | a !in pending
        ensures DemotedAt(a)
      {
        NoList(pending, a);
        DemotedNone(At(queue, a), S(a), currentState.balance(a), currentMaxGas);
      }
      var todo := pending.Keys;
      while todo != {}
        invariant Sound() && book.leaving == {} && book.Fewer()
        invariant forall a :: a in todo ==> At(pending, a) == old(At(pending, a)) && At(queue, a) == old(At(queue, a))
        invariant forall a :: a !in todo ==> DemotedAt(a)
        decreases |todo|
      {
        var b :| b in todo;
        todo := todo - {b};
        if b in pending {
          DemoteAccount(b);
        } else {
          NoList(pending, b);
          DemotedNone(At(queue, b), S(b), currentState.balance(b), currentMaxGas);
        }
      }
    }

    // ----- truncating -----

    /** Every account kept its lowest nonces, and its virtual nonce stepped back to the first that left pending. */
    twostate predicate Trims()
      reads this`pending, this`queue, this`pendingNonces, pendingNonces
    {
      forall a :: Trimmed(old(At(pending, a)), At(pending, a), old(At(queue, a)), At(queue, a), old(PN(a)), PN(a))
    }

    lemma TrimsNone()
      ensures forall a :: Trimmed(At(pending, a), At(pending, a), At(queue, a), At(queue, a), PN(a), PN(a))
    {
      forall a
        ensures Trimmed(At(pending, a), At(pending, a), At(queue, a), At(queue, a), PN(a), PN(a))
      {
        TrimNothing(At(pending, a), At(queue, a), PN(a));
      }
    }

    /** Drop the highest pending nonce of an account, and step the virtual nonce back to it. */
    method DropHighest(a: Address)
      requires Sound() && book.leaving == {} && a in pending
      modifies this`pending, book, book.all, book.priced, pendingNonces
      ensures Sound() && book.leaving == {} && book.Fewer()
      ensures var m := old(At(pending, a));
              && m != map[] && At(pending, a) == m - {Greatest(m.Keys)} && PN(a) == Min(old(PN(a)), Greatest(m.Keys))
      ensures forall x :: x != a ==> At(pending, x) == old(At(pending, x)) && PN(x) == old(PN(x))
      ensures Total(pending) == Total(old(pending)) - 1
    {
      hide Agree, TxBook.Valid, Lowest, Total, LowPart, PartOf, Txs, List.Valid, TxNoncer.Nonce;
      ListsFit(pending, queue, book.txs, a);
      NotEmpty(pending, queue, book.txs, a);
      var m := pending[a].items;
      OperationsLeaveParts(pending[a], |m| - 1, 0, 0);
      LowPartTop(m);
      TotalShelve(pending, a, pending[a].Cap(|m| - 1));
      ShrinkPending(a, pending[a].Cap(|m| - 1));
      pendingNonces.SetIfLower(a, Greatest(m.Keys));
      book.Removed(1);
    }

    /** Dropping the highest pending nonce trims the account and leaves the others alone. */
    method CapOne(a: Address)
      requires Sound() && book.leaving == {} && a in pending
      modifies this`pending, book, book.all, book.priced, pendingNonces
      ensures Sound() && book.leaving == {} && book.Fewer() && Trims()
      ensures LowPart(At(pending, a), old(At(pending, a))) && |At(pending, a)| == |old(At(pending, a))| - 1
      ensures forall x :: x != a ==> At(pending, x) == old(At(pending, x)) && PN(x) == old(PN(x))
      ensures Total(pending) == Total(old(pending)) - 1
    {
      hide Agree, TxBook.Valid, Total, LowPart, At, TxPool.PN, Trimmed;
      TrimsNone();
      ghost var m := At(pending, a);
      DropHighest(a);
      LowPartTop(m);
      TrimTop(m, At(queue, a), old(PN(a)));
    }

    /** Drop the highest pending nonce of each of these accounts, counting down. */
    method CapEach(offs: seq<Address>, count: nat) returns (left: nat)
      requires Sound() && book.leaving == {} && Distinct(offs) && count == Total(pending)
      requires forall o :: o in offs ==> At(pending, o) != map[]
      modifies this`pending, book, book.all, book.priced, pendingNonces
      ensures Sound() && book.leaving == {} && book.Fewer() && Trims()
      ensures left == Total(pending) && left == count - |offs|
      ensures forall o :: o in offs ==>
                LowPart(At(pending, o), old(At(pending, o))) && |At(pending, o)| == |old(At(pending, o))| - 1
      ensures forall x :: x !in offs ==> At(pending, x) == old(At(pending, x))
    {
      hide Agree, TxBook.Valid, Total, LowPart, TxPool.PN, Trimmed;
      book.Accounts();
      TrimsNone();
      left := count;
      for i := 0 to |offs|
        invariant Sound() && book.leaving == {} && book.Fewer() && Trims()
        invariant left == Total(pending) && left == count - i
        invariant forall o :: o in offs[..i] ==>
                    LowPart(At(pending, o), old(At(pending, o))) && |At(pending, o)| == |old(At(pending, o))| - 1
        invariant forall x :: x !in offs[..i] ==> At(pending, x) == old(At(pending, x))
      {
        var o := offs[i];
        DistinctNext(offs, i);
        label turn:
        CapOne(o);
        forall a
          ensures Trimmed(old(At(pending, a)), At(pending, a), old(At(queue, a)), At(queue, a), old(PN(a)), PN(a))
        {
          TrimChain(old(At(pending, a)), old@turn(At(pending, a)), At(pending, a), old(At(queue, a)),
                    old@turn(At(queue, a)), At(queue, a), old(PN(a)), old@turn(PN(a)), PN(a));
        }
        left := left - 1;
      }
      assert offs[..|offs|] == offs;
    }

    /** Cut accounts of equal length in step until the pool fits or they reach the threshold. */
    method Equalize(offs: seq<Address>, threshold: nat, count: nat) returns (left: nat)
      requires Sound() && book.leaving == {} && offs != [] && Distinct(offs) && count == Total(pending)
      requires Even(pending, offs) && |At(pending, offs[|offs| - 1])| >= threshold
      modifies this`pending, book, book.all, book.priced, pendingNonces
      ensures Sound() && book.leaving == {} && book.Fewer() && Trims() && left == Total(pending)
      ensures Even(pending, offs) && |At(pending, offs[|offs| - 1])| >= threshold
      // it stops no later than one round after the pool fits
      ensures left <= config.globalSlots || |At(pending, offs[|offs| - 1])| == threshold
      ensures left <= count && (left == count || config.globalSlots < left + |offs|)
      ensures TrimmedTo(old(pending), pending, offs)
    {
      hide Agree, TxBook.Valid, Total, TxPool.PN, Trimmed, TrimmedTo, Distinct, Even;
      book.Accounts();
      TrimsNone();
      left := count;
      TrimNone(pending, offs);
      while left > config.globalSlots && |At(pending, offs[|offs| - 1])| > threshold
        invariant Sound() && book.leaving == {} && book.Fewer() && Trims() && left == Total(pending)
        invariant Even(pending, offs) && |At(pending, offs[|offs| - 1])| >= threshold
        invariant left <= count && (left == count || config.globalSlots < left + |offs|)
        invariant TrimmedTo(old(pending), pending, offs)
        decreases left
      {
        ghost var before := pending;
        EvenAlive(pending, offs);
        label turn:
        left := CapEach(offs, left);
        forall a
          ensures Trimmed(old(At(pending, a)), At(pending, a), old(At(queue, a)), At(queue, a), old(PN(a)), PN(a))
        {
          TrimChain(old(At(pending, a)), old@turn(At(pending, a)), At(pending, a), old(At(queue, a)),
                    old@turn(At(queue, a)), At(queue, a), old(PN(a)), old@turn(PN(a)), PN(a));
        }
        TrimRound(old(pending), before, pending, offs);
      }
    }

    /** Cut the longest accounts that are not local until the pool fits or every such account is at its allowance. */
    method TruncatePending() returns (ghost offenders: seq<Address>)
      requires Sound() && book.leaving == {}
      modifies this`pending, book, book.all, book.priced, pendingNonces
      ensures Sound() && book.leaving == {} && book.Fewer() && Trims()
      ensures FairCut(old(pending), pending, locals, config.accountSlots, offenders)
      ensures offenders != [] ==> Even(pending, offenders[..|offenders| - 1])
      ensures Total(pending) <= config.globalSlots
              || forall a :: a !in locals ==> |At(pending, a)| <= config.accountSlots
      ensures Total(old(pending)) <= config.globalSlots ==> pending == old(pending) && forall a :: PN(a) == old(PN(a))
      ensures Total(old(pending)) > config.globalSlots ==> config.globalSlots < Total(pending) + |offenders|
    {
      hide Agree, TxBook.Valid, Total, TxPool.PN, Trimmed, TrimmedTo, Distinct, Even, Offending, FairCut, At;
      book.Accounts();
      TrimsNone();
      offenders := [];
      var slots := config.accountSlots;
      var count := CountTxs(pending);
      var spam: map<Address, nat> :=
        map a | a in pending && a !in locals && |pending[a].items| > slots :: |pending[a].items|;
      OffendStart(pending, locals, slots, spam);
      OffendDone(pending, pending, locals, slots, [], spam);
      if count <= config.globalSlots {
        return;
      }
      var offs;
      offs, spam, count := GatherOffenders(spam, count);
      offenders := offs;
      label last:
      CutOffenders(offs, spam, count, old(pending));
      forall a
        ensures Trimmed(old(At(pending, a)), At(pending, a), old(At(queue, a)), At(queue, a), old(PN(a)), PN(a))
      {
        TrimChain(old(At(pending, a)), old@last(At(pending, a)), At(pending, a), old(At(queue, a)),
                  old@last(At(queue, a)), At(queue, a), old(PN(a)), old@last(PN(a)), PN(a));
      }
    }

    /** The penalising loop: while the pool is too full, the longest account left joins the offenders. */
    method GatherOffenders(spam0: map<Address, nat>, count0: nat)
      returns (offs: seq<Address>, spam: map<Address, nat>, count: nat)
      requires Sound() && book.leaving == {} && count0 == Total(pending) && config.globalSlots < count0
      requires Offending(pending, pending, locals, config.accountSlots, [], spam0)
      modifies this`pending, book, book.all, book.priced, pendingNonces
      ensures Sound() && book.leaving == {} && book.Fewer() && Trims() && count == Total(pending)
      ensures Offending(old(pending), pending, locals, config.accountSlots, offs, spam)
      ensures count > config.globalSlots ==> Even(pending, offs) && spam == map[]
      ensures (offs != [] ==> Even(pending, offs[..|offs| - 1])) && config.globalSlots < count + |offs|
    {
      hide Agree, TxBook.Valid, Total, TxPool.PN, Trimmed, TrimmedTo, Distinct, Even, Offending, At;
      book.Accounts();
      TrimsNone();
      offs, spam, count := [], spam0, count0;
      EvenNone(pending);
      while count > config.globalSlots && spam != map[]
        invariant Sound() && book.leaving == {} && book.Fewer() && Trims() && count == Total(pending)
        invariant Offending(old(pending), pending, locals, config.accountSlots, offs, spam)
        invariant count > config.globalSlots ==> Even(pending, offs)
        invariant (offs != [] ==> Even(pending, offs[..|offs| - 1])) && config.globalSlots < count + |offs|
        decreases |spam|
      {
        label turn:
        offs, spam, count := NextOffender(offs, spam, count, old(pending));
        forall a
          ensures Trimmed(old(At(pending, a)), At(pending, a), old(At(queue, a)), At(queue, a), old(PN(a)), PN(a))
        {
          TrimChain(old(At(pending, a)), old@turn(At(pending, a)), At(pending, a), old(At(queue, a)),
                    old@turn(At(queue, a)), At(queue, a), old(PN(a)), old@turn(PN(a)), PN(a));
        }
      }
    }

    /** After the last offender joined: if the pool is still too full, cut all of them towards their allowance. */
    method CutOffenders(offs: seq<Address>, spam: map<Address, nat>, count: nat, ghost p0: Shelf)
      requires Sound() && book.leaving == {} && count == Total(pending)
      requires Offending(p0, pending, locals, config.accountSlots, offs, spam)
      requires count > config.globalSlots ==> Even(pending, offs) && spam == map[]
      requires (offs != [] ==> Even(pending, offs[..|offs| - 1])) && config.globalSlots < count + |offs|
      modifies this`pending, book, book.all, book.priced, pendingNonces
      ensures Sound() && book.leaving == {} && book.Fewer() && Trims()
      ensures FairCut(p0, pending, locals, config.accountSlots, offs)
      ensures offs != [] ==> Even(pending, offs[..|offs| - 1])
      ensures Total(pending) <= config.globalSlots
              || forall a :: a !in locals ==> |At(pending, a)| <= config.accountSlots
      ensures config.globalSlots < Total(pending) + |offs|
    {
      hide Agree, TxBook.Valid, Total, TxPool.PN, Trimmed, TrimmedTo, Distinct, Even, Offending, FairCut;
      book.Accounts();
      TrimsNone();
      var slots := config.accountSlots;
      TrimNone(pending, offs);
      if count > config.globalSlots && |offs| > 0 {
        OffendLast(p0, pending, locals, slots, offs, spam);
        var left := Equalize(offs, slots, count);
        EvenPrefix(pending, offs);
        OffendFair(p0, old(pending), pending, locals, slots, offs, spam);
      } else {
        OffendDone(p0, pending, locals, slots, offs, spam);
        if offs == [] { OffendFair(p0, pending, pending, locals, slots, offs, spam); }
      }
    }

    /** One turn of the penalising loop: the longest account left joins the offenders. */
    method NextOffender(offs: seq<Address>, spam: map<Address, nat>, count: nat, ghost p0: Shelf)
      returns (offs': seq<Address>, spam': map<Address, nat>, left: nat)
      requires Sound() && book.leaving == {} && count == Total(pending) && spam != map[]
      requires Offending(p0, pending, locals, config.accountSlots, offs, spam)
      requires Even(pending, offs) && count > config.globalSlots
      modifies this`pending, book, book.all, book.priced, pendingNonces
      ensures Sound() && book.leaving == {} && book.Fewer() && Trims() && left == Total(pending)
      ensures Offending(p0, pending, locals, config.accountSlots, offs', spam') && |spam'| < |spam|
      ensures offs' != [] && Even(pending, offs'[..|offs'| - 1]) && (left > config.globalSlots ==> Even(pending, offs'))
      ensures config.globalSlots < left + |offs'|
    {
      hide Agree, TxBook.Valid, Total, TxPool.PN, Trimmed, TrimmedTo, Distinct, Even, Offending, At;
      book.Accounts();
      TrimsNone();
      LongestExists(spam, spam.Keys);
      var o :| o in spam && forall a :: a in spam ==> spam[a] <= spam[o];
      OffendFacts(p0, pending, locals, config.accountSlots, offs, spam, o);
      TrimNone(pending, offs);
      left := count;
      if |offs| > 0 {
        left := Equalize(offs, |pending[o].items|, count);
      }
      OffendNext(p0, old(pending), pending, locals, config.accountSlots, offs, spam, o);
      Joined(offs, spam, o);
      offs', spam' := offs + [o], spam - {o};
    }

    /** Remove one queued transaction, by the nonce that holds it. */
    method DropQueued(a: Address, n: nat)
      requires Sound() && book.leaving == {} && n in At(queue, a)
      modifies this`pending, this`queue, book, book.all, book.priced, pendingNonces
      ensures Sound() && book.leaving == {} && book.Fewer()
      ensures pending == old(pending) && At(queue, a) == old(At(queue, a)) - {n}
              && Total(queue) == Total(old(queue)) - 1
      ensures forall x :: PN(x) == old(PN(x)) && (x != a ==> At(queue, x) == old(At(queue, x)))
    {
      hide Agree, TxBook.Valid, Total, Below, AtLeast, TxNoncer.Nonce;
      book.Accounts();
      HolderMatches(pending, queue, book.txs, a, n);
      ApartAt(pending, queue, book.txs, a);
      ListsFit(pending, queue, book.txs, a);
      var tx := queue[a].items[n];
      TotalShelve(queue, a, queue[a].Remove(n));
      OneLess(queue[a].items, n);
      RemoveTx(tx, true);
    }

    /** Remove the k highest nonces of a queue. */
    method DropQueuedTop(a: Address, k: nat)
      requires Sound() && book.leaving == {} && k <= |At(queue, a)|
      modifies this`pending, this`queue, book, book.all, book.priced, pendingNonces
      ensures Sound() && book.leaving == {} && book.Fewer()
      ensures pending == old(pending) && Total(queue) == Total(old(queue)) - k
      ensures LowPart(At(queue, a), old(At(queue, a))) && |At(queue, a)| == |old(At(queue, a))| - k
      ensures forall x :: PN(x) == old(PN(x)) && (x != a ==> At(queue, x) == old(At(queue, x)))
    {
      hide Agree, TxBook.Valid, Total, LowPart, At, TxPool.PN, Lowest;
      book.Accounts();
      var left := k;
      LowPartSelf(At(queue, a));
      while left > 0
        invariant 0 <= left <= k && Sound() && book.leaving == {} && book.Fewer()
        invariant pending == old(pending) && Total(queue) == Total(old(queue)) - (k - left)
        invariant LowPart(At(queue, a), old(At(queue, a))) && |At(queue, a)| == |old(At(queue, a))| - (k - left)
        invariant forall x :: PN(x) == old(PN(x)) && (x != a ==> At(queue, x) == old(At(queue, x)))
      {
        var m := At(queue, a);
        LowPartTop(m);
        DropQueued(a, Greatest(m.Keys));
        LowPartChain(At(queue, a), m, old(At(queue, a)));
        left := left - 1;
      }
    }

    /** Shrink the queues of accounts that are not local, in any order, until the total fits. */
    method TruncateQueue()
      requires Sound() && book.leaving == {}
      modifies this`pending, this`queue, book, book.all, book.priced, pendingNonces
      ensures Sound() && book.leaving == {} && book.Fewer() && pending == old(pending)
      ensures Total(old(queue)) <= config.globalQueue ==> queue == old(queue)
      // exactly the excess is dropped, unless only local queues are left
      ensures Total(old(queue)) > config.globalQueue ==> Total(queue) >= config.globalQueue
      ensures Total(queue) > config.globalQueue ==> queue.Keys <= locals
      // local queues are as they were, others keep their lowest nonces
      ensures Draining(old(queue), queue, locals, {}, 0)
      ensures forall x :: PN(x) == old(PN(x))
    {
      hide Agree, TxBook.Valid, Total, LowPart, TxPool.PN, At, Draining;
      book.Accounts();
      var queued := CountTxs(queue);
      var addresses := queue.Keys - locals;
      DrainStart(queue, locals, addresses);
      if queued <= config.globalQueue {
        return;
      }
      var drop: nat := queued - config.globalQueue;
      while drop > 0 && addresses != {}
        invariant Sound() && book.leaving == {} && book.Fewer() && pending == old(pending)
        invariant Total(queue) == config.globalQueue + drop
        invariant Draining(old(queue), queue, locals, addresses, drop)
        invariant forall x :: PN(x) == old(PN(x))
        decreases |addresses|
      {
        addresses, drop := DrainNext(addresses, drop, old(queue));
      }
      DrainEnd(old(queue), queue, locals, addresses, drop);
    }

    /** One turn of it: some account gives up its highest nonces, all of them if that is not enough. */
    method DrainNext(addresses: set<Address>, drop: nat, ghost q0: Shelf)
      returns (addresses': set<Address>, drop': nat)
      requires Sound() && book.leaving == {} && drop > 0 && addresses != {}
      requires Total(queue) == config.globalQueue + drop && Draining(q0, queue, locals, addresses, drop)
      modifies this`pending, this`queue, book, book.all, book.priced, pendingNonces
      ensures Sound() && book.leaving == {} && book.Fewer() && pending == old(pending)
      ensures Total(queue) == config.globalQueue + drop' && Draining(q0, queue, locals, addresses', drop')
      ensures |addresses'| < |addresses| && forall x :: PN(x) == old(PN(x))
    {
      hide Agree, TxBook.Valid, Total, LowPart, TxPool.PN, At, Draining;
      var a :| a in addresses;
      var k := Min(|At(queue, a)|, drop);
      DropQueuedTop(a, k);
      addresses', drop' := addresses - {a}, drop - k;
      DrainTurn(pending, q0, old(queue), queue, book.txs, locals, addresses, addresses', a, drop, drop');
    }

    // ----- the reorg run -----

    /** Set the virtual nonce of every account with pending transactions after its highest one. */
    method UpdateNonces()
      requires Sound()
      modifies pendingNonces
      ensures forall a :: a !in pending ==> PN(a) == old(PN(a))
      ensures forall a :: a in pending ==> pending[a].items != map[] && PN(a) == Greatest(pending[a].items.Keys) + 1
    {
      hide Agree, TxBook.Valid, TxNoncer.Nonce;
      forall a | a in pending
        ensures pending[a].items != map[]
      {
        NotEmpty(pending, queue, book.txs, a);
      }
      var todo := pending.Keys;
      while todo != {}
        invariant todo <= pending.Keys
        invariant forall a :: a !in pending ==> PN(a) == old(PN(a))
        invariant forall a :: a in pending && a !in todo ==> PN(a) == Greatest(pending[a].items.Keys) + 1
        decreases |todo|
      {
        var a :| a in todo;
        todo := todo - {a};
        pendingNonces.Set(a, Greatest(pending[a].items.Keys) + 1);
      }
    }

    /** Updating the virtual nonces brings a steady pool to rest and moves none that was at rest. */
    method SettleNonces()
      requires Sound() && forall a :: SteadyAt(a) || RestsAt(a)
      modifies pendingNonces
      ensures Resting()
      ensures forall a :: old(RestsAt(a)) || At(pending, a) == map[] ==> PN(a) == old(PN(a))
      ensures forall a :: old(AheadAt(a)) ==> AheadAt(a)
    {
      hide Agree, TxBook.Valid, Range, Fresh, Solid, Exact;
      forall a
        ensures SteadyAt(a)
      {
        if RestsAt(a) { RangeIsSteady(At(pending, a), S(a), PN(a)); }
      }
      UpdateNonces();
      forall a
        ensures RestsAt(a) && (old(RestsAt(a)) ==> PN(a) == old(PN(a))) && (old(AheadAt(a)) ==> AheadAt(a))
      {
        assert old(SteadyAt(a));
        if a in pending {
          SteadyTop(pending[a].items, S(a));
          RangeTop(pending[a].items, S(a), old(PN(a)));
          TopAhead(pending[a].items, S(a));
        } else {
          SteadyNone(S(a), PN(a));
        }
      }
    }

    /** So few transactions that truncation has nothing to do, however they are split between pending and queue. */
    ghost predicate Small()
      reads book
    {
      |book.txs| <= config.globalSlots && |book.txs| <= config.globalQueue
    }

    /** The end of every run: truncate pending, then the queue, then bring the virtual nonces up to date. */
    method Truncate()
      requires Sound() && book.leaving == {} && forall a :: SteadyAt(a) || RestsAt(a)
      modifies this`pending, this`queue, book, book.all, book.priced, pendingNonces
      ensures Inv() && book.Fewer()
      ensures Total(pending) <= config.globalSlots
              || forall a :: a !in locals ==> |At(pending, a)| <= config.accountSlots
      ensures Total(queue) <= config.globalQueue || queue.Keys <= locals
      ensures forall a :: old(AheadAt(a)) ==> AheadAt(a)
      // nothing becomes executable in a queue that was not
      ensures forall a :: LeftAt(a) ==> old(LeftAt(a))
      ensures forall a :: old(RestsAt(a) && ServedAt(a)) ==> ServedAt(a)
      ensures forall a :: At(pending, a) == map[] ==> PN(a) <= old(PN(a))
      ensures CutDown(old(pending), pending, old(queue), queue, locals, config.accountSlots, config.globalSlots,
                      config.globalQueue)
      ensures old(Small()) ==> pending == old(pending) && queue == old(queue)
      ensures old(Small()) ==> forall a :: old(RestsAt(a)) ==> PN(a) == old(PN(a))
    {
      hide Agree, TxBook.Valid, TxPool.PN, Trimmed, Total, At, LowPart, Range, Fresh, Solid, Exact, Left, Disjoint;
      hide CutDown;
      TotalIsAll(pending, queue, book.txs);
      Trim();
      TrimPromises();
      SettleNonces();
    }

    /** Truncate pending, then the queue. */
    method Trim()
      requires Sound() && book.leaving == {}
      modifies this`pending, this`queue, book, book.all, book.priced, pendingNonces
      ensures Sound() && book.leaving == {} && book.Fewer() && Trims()
      ensures Total(pending) <= config.globalSlots
              || forall a :: a !in locals ==> |At(pending, a)| <= config.accountSlots
      ensures Total(queue) <= config.globalQueue || queue.Keys <= locals
      ensures CutDown(old(pending), pending, old(queue), queue, locals, config.accountSlots, config.globalSlots,
                      config.globalQueue)
      ensures Total(old(pending)) <= config.globalSlots && Total(old(queue)) <= config.globalQueue ==>
                pending == old(pending) && queue == old(queue) && forall a :: PN(a) == old(PN(a))
    {
      hide Agree, TxBook.Valid, TxPool.PN, Trimmed, Total, At, LowPart, FairCut, Draining;
      var offenders := TruncatePending();
      label halfway:
      TruncateQueue();
      forall a
        ensures Trimmed(old(At(pending, a)), At(pending, a), old(At(queue, a)), At(queue, a), old(PN(a)), PN(a))
      {
        DrainedLow(old(queue), queue, locals, a);
        TrimQueue(At(pending, a), old(At(queue, a)), At(queue, a), PN(a));
        TrimChain(old(At(pending, a)), old@halfway(At(pending, a)), At(pending, a), old(At(queue, a)),
                  old@halfway(At(queue, a)), At(queue, a), old(PN(a)), old@halfway(PN(a)), PN(a));
      }
    }

    /** What trimming keeps, account by account. */
    twostate lemma TrimPromises()
      requires old(Sound()) && Trims() && currentState == old(currentState)
      ensures forall a :: old(RestsAt(a)) ==> RestsAt(a)
      ensures forall a :: old(SteadyAt(a)) ==> SteadyAt(a)
      ensures forall a :: old(AheadAt(a)) ==> AheadAt(a)
      ensures forall a :: LeftAt(a) ==> old(LeftAt(a))
      ensures forall a :: old(ServedAt(a) && Fresh(At(queue, a), S(a))) ==> ServedAt(a)
      ensures forall a :: PN(a) <= old(PN(a))
    {
      hide Agree, TxBook.Valid, TxPool.PN, Trimmed, At, Range, Fresh, Solid, Exact, Left;
      forall a
        ensures old(RestsAt(a)) ==> RestsAt(a)
        ensures old(SteadyAt(a)) ==> SteadyAt(a)
        ensures old(AheadAt(a)) ==> AheadAt(a)
        ensures LeftAt(a) ==> old(LeftAt(a))
        ensures old(ServedAt(a) && Fresh(At(queue, a), S(a))) ==> ServedAt(a)
        ensures PN(a) <= old(PN(a))
      {
        ghost var m, q, pn, s := old(At(pending, a)), old(At(queue, a)), old(PN(a)), S(a);
        ApartAt(old(pending), old(queue), old(book.txs), a);
        if old(RestsAt(a)) { TrimmedRests(m, At(pending, a), q, At(queue, a), s, pn, PN(a)); }
        if old(SteadyAt(a)) { TrimmedSteady(m, At(pending, a), q, At(queue, a), s, pn, PN(a)); }
        if old(AheadAt(a)) { TrimmedAhead(m, At(pending, a), q, At(queue, a), s, pn, PN(a)); }
        if old(Fresh(At(queue, a), S(a))) { TrimmedFresh(m, At(pending, a), q, At(queue, a), s, pn, PN(a)); }
        TrimmedLeft(m, At(pending, a), q, At(queue, a), s, pn, PN(a));
      }
    }

    /** Take over the state of a new head, with virtual nonces on top of it. */
    method FollowHead(state: ChainState, maxGas: nat)
      requires Sound() && book.leaving == {} && Resting()
      requires forall a :: S(a) <= state.nonce(a)
      modifies this`currentState, this`pendingNonces, this`currentMaxGas
      ensures Sound() && book.leaving == {} && Resetting() && fresh(pendingNonces)
      ensures currentState == state && currentMaxGas == maxGas && forall a :: PN(a) == S(a)
    {
      hide Agree, TxBook.Valid, Range, Fresh, Solid, At;
      forall a
        ensures Solid(At(pending, a), state.nonce(a))
      {
        assert RestsAt(a);
        AdvanceKeepsSolid(At(pending, a), S(a), PN(a), state.nonce(a));
      }
      currentState := state;
      pendingNonces := new TxNoncer(state.nonce);
      currentMaxGas := maxGas;
      assert forall a :: ResetsAt(a);
    }

    /** Nothing is reinjected, or there is room for all of it. */
    ghost predicate Roomy(reinject: seq<Tx>)
      reads book, book.all
    {
      reinject == [] || HasRoom(SlotSum(reinject))
    }

    /** Add what a reorg dropped to a pool whose virtual nonces are on the state. */
    method Reinject(txs: seq<Tx>)
      requires Sound() && book.leaving == {} && Resetting() && forall a :: PN(a) == S(a)
      modifies this`pending, this`queue, this`locals, book, book.all, book.priced, pendingNonces
      ensures Sound() && book.leaving == {} && Resetting() && locals == old(locals) && book.SameFee()
      ensures book.txs <= old(book.txs) + SetOf(txs) && (txs == [] ==> pending == old(pending) && queue == old(queue))
      ensures Leads(old(Pool()), Pool(), txs, old(Invalids(txs, false)), old(TermsOf(false)), |txs|)
      ensures Displaced(old(book.txs), book.txs, txs) <= old(book.all.remotes)
      ensures |Displaced(old(book.txs), book.txs, txs)| <= old(Excess()) + SlotSum(txs)
      ensures forall a :: PN(a) < S(a) <==> LostBelow(old(At(pending, a)), At(pending, a), S(a))
      ensures txs != [] && old(Displaces(txs[0], Rule())) && old(book.txs) !! SetOf(txs) ==>
                old(book.txs) - book.txs != {}
      ensures old(Roomy(txs)) ==>
                forall a :: At(pending, a).Keys == old(At(pending, a)).Keys && PN(a) == S(a)
      ensures old(Roomy(txs)) ==> forall a :: old(At(queue, a)).Keys <= At(queue, a).Keys
      ensures old(Roomy(txs)) ==>
                book.txs == Standing(old(book.txs), txs, old(Invalids(txs, false)), config.priceBump)
    {
      hide Agree, TxBook.Valid, TxPool.ResetsAt, TxPool.RestsAt, TxPool.AheadAt, At, TxPool.PN, HolderIn, SlotSum;
      hide Shed, LostBelow, CalmAt, Checks, TxPool.Displaces, Judge, Swapped, TxPool.HasRoom, Displaced, Leads;
      var dirty, results := AddAll(txs, false);
      assert old(Roomy(txs)) ==> Calm();
      assert txs[..|txs|] == txs && old(Invalids(txs, false))[..|txs|] == old(Invalids(txs, false));
      forall a
        ensures PN(a) < S(a) <==> LostBelow(old(At(pending, a)), At(pending, a), S(a))
        ensures old(Roomy(txs)) ==> At(pending, a).Keys == old(At(pending, a)).Keys && PN(a) == S(a)
        ensures old(Roomy(txs)) ==> old(At(queue, a)).Keys <= At(queue, a).Keys
      {
        assert Shed(old(At(pending, a)), At(pending, a), old(PN(a)), PN(a));
        ShedBehind(old(At(pending, a)), At(pending, a), S(a), PN(a));
        if old(Roomy(txs)) {
          CalmKeys(old(At(pending, a)), At(pending, a), old(At(queue, a)), At(queue, a), S(a), PN(a));
        }
      }
    }

    /** What a transaction that comes back with a new head is validated against: its state, and the forks so far. */
    function RuleUnder(req: ResetRequest): Rules
      reads this
    {
      Rule().(state := req.state, maxGas := req.maxGas)
    }

    /** Follow a new head, then reinject what the reorg dropped. */
    method Reset(req: ResetRequest)
      requires Sound() && book.leaving == {} && Resting()
      requires forall a :: S(a) <= req.state.nonce(a)
      modifies this, book, book.all, book.priced
      ensures Sound() && book.leaving == {} && Resetting() && fresh(pendingNonces) && book.SameFee()
      ensures currentState == req.state && currentMaxGas == req.maxGas && gasPrice == old(gasPrice)
      ensures eip2718 == req.eip2718 && eip1559 == req.eip1559 && locals == old(locals)
      ensures req.reinject == [] ==> pending == old(pending) && queue == old(queue) && book.txs == old(book.txs)
      ensures book.txs <= old(book.txs) + SetOf(req.reinject)
      // room or not, each transaction that comes back had its turn
      ensures Leads(old(Pool()), Pool(), req.reinject, Checks(req.reinject, false, old(RuleUnder(req)), old(locals)),
                    old(TermsOf(false)), |req.reinject|)
      // what leaves and is of no nonce that comes back was remote, and there are at most as many as there are slots to
      // take back
      ensures Displaced(old(book.txs), book.txs, req.reinject) <= old(book.all.remotes)
      ensures |Displaced(old(book.txs), book.txs, req.reinject)| <= old(Excess()) + SlotSum(req.reinject)
      // a virtual nonce is behind the new state exactly if reinjection evicted something pending that is older
      ensures forall a :: PN(a) < S(a) <==> LostBelow(old(At(pending, a)), At(pending, a), S(a))
      // and it does evict something if the pool is full and takes the first one that comes back
      ensures old(book.txs) !! SetOf(req.reinject) && req.reinject != []
              && old(Displaces(req.reinject[0], RuleUnder(req))) ==>
                old(book.txs) - book.txs != {}
      // unless it overflows the pool, reinjection loses no nonce and leaves the virtual nonces on the new state
      ensures old(Roomy(req.reinject)) ==>
                forall a :: At(pending, a).Keys == old(At(pending, a)).Keys && PN(a) == S(a)
      ensures old(Roomy(req.reinject)) ==> forall a :: old(At(queue, a)).Keys <= At(queue, a).Keys
      // and what is pooled then is decided by what was pooled before and is valid on the new head
      ensures old(Roomy(req.reinject)) ==>
                book.txs == Standing(old(book.txs), req.reinject,
                                     Checks(req.reinject, false, old(RuleUnder(req)), old(locals)), config.priceBump)
    {
      hide Agree, TxBook.Valid, TxPool.ResetsAt, TxPool.RestsAt, At, TxPool.PN, LostBelow, Checks, Standing;
      hide TxPool.Displaces, Displaced, Leads, SlotSum, TxPool.Excess, TxPool.HasRoom;
      FollowHead(req.state, req.maxGas);
      NoneStand(book.txs, config.priceBump);
      Reinject(req.reinject);
      eip2718, eip1559 := req.eip2718, req.eip1559;
    }

    /** Promoting and demoting the account will leave something executable in its queue. */
    ghost predicate StuckAt(a: Address)
      reads this`pending, this`queue, this`currentState, this`currentMaxGas, this`pendingNonces, pendingNonces
    {
      Stuck(At(pending, a), At(queue, a), S(a), PN(a), currentState.balance(a), currentMaxGas)
    }

    /** Promote every queue of a pool that is being reset. */
    method PromoteAll()
      requires Sound() && book.leaving == {} && Resetting()
      modifies this`pending, this`queue, book, book.all, book.priced, pendingNonces
      ensures Sound() && book.leaving == {} && book.Fewer()
      ensures forall a :: PromotedAt(a) && FollowsAt(a) && Fresh(At(queue, a), S(a))
      ensures forall a :: a !in old(queue) ==> PN(a) == old(PN(a))
    {
      hide Agree, TxBook.Valid, Fresh, Solid, Promoted, At, TxPool.PN;
      forall a
        ensures FollowsAt(a)
      {
        assert ResetsAt(a);
      }
      var accounts := Heap.ListOf(queue.Keys);
      ListedOnce(accounts, queue.Keys);
      var promoted := PromoteExecutables(accounts);
      forall a
        ensures PromotedAt(a) && FollowsAt(a) && Fresh(At(queue, a), S(a))
      {
        assert old(FollowsAt(a));
        if a !in accounts {
          NoList(old(queue), a);
          PromotedNone(At(pending, a), S(a), PN(a), currentState.balance(a), currentMaxGas, a in locals,
                       config.accountQueue);
        }
      }
    }

    /** The tables as they are. */
    ghost function Now(): Stage
      reads this`pending, this`queue, book
    {
      Stage(pending, queue, book.txs)
    }

    /** What serving an account makes of its lists under the current head. */
    ghost function ServedOf(a: Address, l: Lists, onState: bool): Lists
      reads this
    {
      Served(l, S(a), onState, currentState.balance(a), currentMaxGas, a in locals, config.accountQueue)
    }

    /** Promote the queues of a pool that is being reset and demote what the new state rules out. */
    method PromoteAndDemote(baseFee: Option<nat>)
      requires Sound() && book.leaving == {} && Resetting()
      modifies this`pending, this`queue, book, book.all, book.priced, pendingNonces
      ensures Sound() && book.leaving == {} && book.txs <= old(book.txs) && forall a :: SteadyAt(a)
      // every account is served, and its queue gives up the run at the state nonce only to a virtual nonce on the state
      ensures forall a :: Now().Of(a) == ServedOf(a, old(Now().Of(a)), old(PN(a)) == S(a))
      // something executable is left in a queue exactly if it was stuck
      ensures forall a :: LeftAt(a) <==> old(StuckAt(a))
      ensures forall a :: old(PN(a)) <= PN(a) && (a !in old(queue) ==> PN(a) == old(PN(a)))
      ensures book.priced.baseFee == if baseFee.Some? then baseFee else old(book.priced.baseFee)
    {
      hide Agree, TxBook.Valid, Fresh, Solid, Exact, Promoted, Demoted, Following, Left, Stuck, Disjoint, At, TxPool.PN;
      hide Served;
      PromoteAll();
      label promoted:
      DemoteUnexecutables();
      forall a
        ensures SteadyAt(a) && (LeftAt(a) <==> old(StuckAt(a))) && old(PN(a)) <= PN(a)
        ensures Now().Of(a) == ServedOf(a, old(Now().Of(a)), old(PN(a)) == S(a))
      {
        ghost var balance, s := currentState.balance(a), S(a);
        ghost var m, m1 := old(At(pending, a)), old@promoted(At(pending, a));
        ghost var q, q1 := old(At(queue, a)), old@promoted(At(queue, a));
        assert old(ResetsAt(a)) && old@promoted(FollowsAt(a)) && DemotedAt@promoted(a);
        DisjointAt(old(pending), old(queue), old(book.txs), a);
        DemotedSteadily(m1, At(pending, a), q1, At(queue, a), s, PN(a), balance, currentMaxGas);
        StuckLeft(m, m1, At(pending, a), q, q1, At(queue, a), s, old(PN(a)), PN(a), balance, currentMaxGas, a in locals,
                  config.accountQueue);
        PromotedNonce(m, m1, q, q1, s, old(PN(a)), PN(a), balance, currentMaxGas, a in locals, config.accountQueue);
        ServedIs(m, m1, At(pending, a), q, q1, At(queue, a), s, old(PN(a)), PN(a), balance, currentMaxGas, a in locals,
                 config.accountQueue);
      }
      if baseFee.Some? {
        book.SetBaseFee(baseFee.value);
      }
    }

    /** Its virtual nonce is behind the state, and a usable transaction waits at the state nonce. */
    ghost predicate StrandedAt(a: Address)
      reads this`queue, this`currentState, this`currentMaxGas, this`pendingNonces, pendingNonces
    {
      PN(a) < S(a) && S(a) in Usable(a)
    }

    /** On the new head, the first nonce that is not pending is queued and usable, something is pending before it, and
        none of that is dropped. */
    ghost predicate StuckUnder(a: Address, req: ResetRequest)
      reads this`pending, this`queue
    {
      var s := req.state.nonce(a);
      Stuck(At(pending, a), At(queue, a), s, s, req.state.balance(a), req.maxGas)
    }

    /** A run without a new head: promote the dirty accounts and truncate. */
    method ServeDirty(dirty: set<Address>) returns (ghost served: Stage)
      requires Inv()
      modifies this`pending, this`queue, book, book.all, book.priced, pendingNonces
      ensures Inv() && book.Fewer()
      ensures Total(pending) <= config.globalSlots
              || forall a :: a !in locals ==> |At(pending, a)| <= config.accountSlots
      ensures Total(queue) <= config.globalQueue || queue.Keys <= locals
      ensures forall a :: old(AheadAt(a)) ==> AheadAt(a)
      ensures forall a :: a in dirty ==> ServedAt(a) && (LeftAt(a) ==> old(StrandedAt(a)))
      ensures old(Small()) ==> forall a :: a in dirty ==> PromotedAt(a) && (LeftAt(a) <==> old(StrandedAt(a)))
      ensures old(Small()) ==> forall a :: a !in dirty ==>
                At(pending, a) == old(At(pending, a)) && At(queue, a) == old(At(queue, a)) && PN(a) == old(PN(a))
      ensures forall a :: a in dirty ==>
                Advanced(old(Now().Of(a)), served.Of(a), S(a), old(PN(a)), currentState.balance(a), currentMaxGas,
                         a in locals, config.accountQueue)
      ensures forall a :: a !in dirty ==> served.Of(a) == old(Now().Of(a))
      ensures CutDown(served.pending, pending, served.queue, queue, locals, config.accountSlots, config.globalSlots,
                      config.globalQueue)
    {
      hide Agree, TxBook.Valid, TxPool.RestsAt, TxPool.SteadyAt, TxPool.FollowsAt, TxPool.ServedAt, At, Total;
      hide TxPool.PN;
      hide Promoted, Left, UsableOf, Disjoint, TxPool.AheadAt, CutDown;
      var accounts := Heap.ListOf(dirty);
      ListedOnce(accounts, dirty);
      var promoted := PromoteExecutables(accounts);
      forall a
        ensures old(AheadAt(a)) ==> AheadAt(a)
        ensures a in dirty ==> (LeftAt(a) <==> old(StrandedAt(a)))
      {
        assert old(RestsAt(a)) && RestsAt(a);
        if a in dirty { PromotedRest(a); } else { SameAhead(a); }
      }
      served := Now();
      NoMore(book.txs, old(book.txs));
      Truncate();
    }

    /** What a promotion at rest leaves behind. */
    twostate lemma PromotedRest(a: Address)
      requires old(Sound() && RestsAt(a)) && RestsAt(a) && PromotedAt(a) && currentState == old(currentState)
      requires currentMaxGas == old(currentMaxGas)
      ensures LeftAt(a) <==> old(StrandedAt(a))
      ensures old(AheadAt(a)) ==> AheadAt(a)
    {
      hide Agree, TxBook.Valid, At, TxPool.PN, Promoted, Left, UsableOf, Disjoint, Range, Fresh;
      DisjointAt(old(pending), old(queue), old(book.txs), a);
      RestLeft(old(At(pending, a)), At(pending, a), old(At(queue, a)), At(queue, a), S(a), old(PN(a)), PN(a),
               currentState.balance(a), currentMaxGas, a in locals, config.accountQueue);
      PromotedNonce(old(At(pending, a)), At(pending, a), old(At(queue, a)), At(queue, a), S(a), old(PN(a)), PN(a),
                    currentState.balance(a), currentMaxGas, a in locals, config.accountQueue);
      AtRest(At(pending, a), S(a), PN(a));
    }

    twostate lemma SameAhead(a: Address)
      requires At(pending, a) == old(At(pending, a)) && PN(a) == old(PN(a)) && currentState == old(currentState)
      ensures old(AheadAt(a)) ==> AheadAt(a)
    {
    }

    /** Too old or too dear for the current state, beyond the limit of its account's queue, or cut. */
    ghost predicate Leaves(tx: Tx, served: Stage)
      reads this
    {
      var a := tx.from;
      || Expelled(tx, served.Of(a), S(a), currentState.balance(a), currentMaxGas, a in locals, config.accountQueue)
      || Cut(tx, served.Of(a), Lists(At(pending, a), At(queue, a)), a in locals, config.accountSlots,
             Total(served.pending) > config.globalSlots, Total(served.queue) > config.globalQueue)
    }

    lemma LeavesOnly(mid: Stage, served: Stage, tx: Tx, onState: bool)
      requires Sound() && mid.Agrees() && tx in mid.txs && tx !in book.txs
      requires served.Of(tx.from) == ServedOf(tx.from, mid.Of(tx.from), onState)
      requires CutDown(served.pending, pending, served.queue, queue, locals, config.accountSlots, config.globalSlots,
                       config.globalQueue)
      ensures Leaves(tx, served)
    {
      hide Agree, TxBook.Valid, At, Total, Served, CutDown, Expelled, Cut;
      LeavesFor(mid, served, Now(), locals, config.accountSlots, config.globalSlots, config.globalQueue, S(tx.from),
                onState, currentState.balance(tx.from), currentMaxGas, config.accountQueue, tx);
    }

    /** Promote, demote and truncate a pool that is being reset. */
    method ServeAll(baseFee: Option<nat>) returns (ghost served: Stage)
      requires Sound() && book.leaving == {} && Resetting()
      modifies this`pending, this`queue, book, book.all, book.priced, pendingNonces
      ensures Inv() && book.txs <= old(book.txs)
      ensures Total(pending) <= config.globalSlots
              || forall a :: a !in locals ==> |At(pending, a)| <= config.accountSlots
      ensures Total(queue) <= config.globalQueue || queue.Keys <= locals
      ensures forall a :: old(PN(a)) == S(a) ==> AheadAt(a)
      ensures forall a :: LeftAt(a) ==> old(StuckAt(a))
      ensures old(Small()) ==> forall a :: (LeftAt(a) <==> old(StuckAt(a))) && Now().Of(a) == served.Of(a)
      ensures forall a :: served.Of(a) == ServedOf(a, old(Now().Of(a)), old(PN(a)) == S(a))
      ensures CutDown(served.pending, pending, served.queue, queue, locals, config.accountSlots, config.globalSlots,
                      config.globalQueue)
      ensures forall tx :: tx in old(book.txs) && tx !in book.txs ==> Leaves(tx, served)
      ensures book.priced.baseFee == if baseFee.Some? then baseFee else old(book.priced.baseFee)
    {
      hide Agree, TxBook.Valid, TxPool.ResetsAt, At, Total, TxPool.PN, Range, Fresh, Solid, Exact, Left, Stuck;
      hide Served, CutDown, TxPool.Leaves;
      PromoteAndDemote(baseFee);
      forall a | old(PN(a)) == S(a)
        ensures AheadAt(a)
      {
        assert SteadyAt(a);
      }
      served := Now();
      NoMore(book.txs, old(book.txs));
      Truncate();
      forall tx | tx in old(book.txs) && tx !in book.txs
        ensures Leaves(tx, served)
      {
        LeavesOnly(old(Now()), served, tx, old(PN(tx.from)) == S(tx.from));
      }
    }

    /** What a run with a new head did, in three stages: reinjection led to `mid`, serving every account led from there
        to `served`, and truncation from there to what is now. */
    twostate predicate Followed(req: ResetRequest, mid: Stage, served: Stage)
      reads this, book
    {
      && Reinjected(old(Now()), old(book.all.remotes), mid, req.reinject,
                    Checks(req.reinject, false, old(RuleUnder(req)), old(locals)), old(TermsOf(false)),
                    old(Roomy(req.reinject)), old(Excess()) + SlotSum(req.reinject))
      && (forall a :: served.Of(a) == ServedOf(a, mid.Of(a), !LostBelow(old(At(pending, a)), At(mid.pending, a), S(a))))
      && CutDown(served.pending, pending, served.queue, queue, locals, config.accountSlots, config.globalSlots,
                 config.globalQueue)
      // so what was pooled then and is not now left for one of these reasons
      && book.txs <= mid.txs && (forall tx :: tx in mid.txs && tx !in book.txs ==> Leaves(tx, served))
      // and in a small pool with room these are the two lists of each account
      && (old(Roomy(req.reinject) && Sparse(|req.reinject|)) ==>
            forall a :: Now().Of(a) == ServedOf(a, FiledLists(mid.txs, a, old(At(pending, a)).Keys), true))
    }

    /** A run with a new head: follow it, promote and demote everything, and truncate. */
    method FollowReset(req: ResetRequest) returns (ghost mid: Stage, ghost served: Stage)
      requires Inv() && forall a :: S(a) <= req.state.nonce(a)
      modifies this, book, book.all, book.priced
      ensures Inv() && fresh(pendingNonces) && currentState == req.state && currentMaxGas == req.maxGas
      ensures eip2718 == req.eip2718 && eip1559 == req.eip1559 && gasPrice == old(gasPrice) && locals == old(locals)
      ensures Total(pending) <= config.globalSlots
              || forall a :: a !in locals ==> |At(pending, a)| <= config.accountSlots
      ensures Total(queue) <= config.globalQueue || queue.Keys <= locals
      ensures forall a :: old(Roomy(req.reinject)) || Fresh(old(At(pending, a)), S(a)) ==> AheadAt(a)
      ensures old(Roomy(req.reinject)) ==> forall a :: old(PN(a)) <= S(a) ==> !LeftAt(a)
      ensures req.reinject == [] ==> forall a :: LeftAt(a) ==> old(StuckUnder(a, req))
      ensures req.reinject == [] && old(Small()) ==> forall a :: LeftAt(a) <==> old(StuckUnder(a, req))
      ensures Followed(req, mid, served)
      ensures book.priced.baseFee == if req.baseFee.Some? then req.baseFee else old(book.priced.baseFee)
    {
      hide Agree, TxBook.Valid, TxPool.ResetsAt, At, Total, TxPool.PN, Range, Fresh, Solid, Exact, Left, Stuck;
      hide TxPool.HasRoom, HolderIn, Served, CutDown, Displaced, Standing, Checks, LostBelow, FiledLists, TxPool.Leaves;
      hide TxPool.Excess, TxPool.Displaces, SlotSum, Leads;
      Reset(req);
      mid := Now();
      ghost var checks := Checks(req.reinject, false, old(RuleUnder(req)), old(locals));
      assert Leads(old(Pool()), Pooled(mid.txs, book.all.remotes), req.reinject, checks, old(TermsOf(false)),
                   |req.reinject|);
      assert Reinjected(old(Now()), old(book.all.remotes), mid, req.reinject, checks, old(TermsOf(false)),
                        old(Roomy(req.reinject)), old(Excess()) + SlotSum(req.reinject));
      assert req.reinject == [] ==> old(Roomy(req.reinject));
      hide Reinjected, TxPool.Roomy, TxPool.Now, TxPool.RestsAt;
      forall a
        ensures PN(a) == S(a) <==> !LostBelow(old(At(pending, a)), At(mid.pending, a), S(a))
      {
        NotPast(a);
      }
      forall a | old(Roomy(req.reinject)) && old(PN(a)) <= S(a)
        ensures !StuckAt(a)
      {
        assert old(RestsAt(a));
        NotStuck(old(At(pending, a)), At(pending, a), At(queue, a), old(S(a)), old(PN(a)), S(a),
                 currentState.balance(a), currentMaxGas);
      }
      forall a | Fresh(old(At(pending, a)), S(a))
        ensures PN(a) == S(a)
      {
        NoneLost(old(At(pending, a)), At(mid.pending, a), S(a));
      }
      StandingGrows(old(book.txs), req.reinject, checks, config.priceBump);
      served := ServeAll(req.baseFee);
      if old(Roomy(req.reinject) && Sparse(|req.reinject|)) {
        forall a
          ensures Now().Of(a) == ServedOf(a, FiledLists(mid.txs, a, old(At(pending, a)).Keys), true)
        {
          FiledIs(mid, a);
        }
      }
    }

    /** During a reset no virtual nonce is past the state. */
    lemma NotPast(a: Address)
      requires Resetting()
      ensures PN(a) <= S(a)
    {
      assert ResetsAt(a);
    }

    /** runReorg: follow the new head if there is one, promote, demote, truncate, and bring the nonces up to date. */
    method Reorg(reset: Option<ResetRequest>, dirty: set<Address>) returns (ghost mid: Stage, ghost served: Stage)
      requires Inv()
      requires reset.Some? ==> forall a :: S(a) <= reset.value.state.nonce(a)
      modifies this, book, book.all, book.priced, pendingNonces
      ensures Inv() && (pendingNonces == old(pendingNonces) || fresh(pendingNonces))
      ensures gasPrice == old(gasPrice) && locals == old(locals)
      ensures reset.None? ==> currentState == old(currentState) && currentMaxGas == old(currentMaxGas)
                              && eip2718 == old(eip2718) && eip1559 == old(eip1559) && book.Fewer()
      ensures reset.Some? ==> currentState == reset.value.state && currentMaxGas == reset.value.maxGas
                              && eip2718 == reset.value.eip2718 && eip1559 == reset.value.eip1559
      // the limits are kept, as far as accounts that are not local go
      ensures Total(pending) <= config.globalSlots
              || forall a :: a !in locals ==> |At(pending, a)| <= config.accountSlots
      ensures Total(queue) <= config.globalQueue || queue.Keys <= locals
      // no virtual nonce falls behind the state, unless a reset reinjects more than the pool has room for, and then
      // only where something older than the new state was pending
      ensures reset.None? ==> forall a :: old(AheadAt(a)) ==> AheadAt(a)
      ensures reset.Some? ==>
                forall a :: old(Roomy(reset.value.reinject)) || Fresh(old(At(pending, a)), S(a)) ==> AheadAt(a)
      // without a reset, a dirty account has nothing queued at its virtual nonce, and an executable transaction is left
      // in its queue only if the virtual nonce was behind the state; otherwise nothing is queued at the state nonce
      // either
      ensures reset.None? ==> forall a :: a in dirty ==> PN(a) !in At(queue, a) && (LeftAt(a) ==> old(StrandedAt(a)))
      ensures reset.None? ==> forall a :: a in dirty && old(AheadAt(a)) ==> !LeftAt(a) && S(a) !in At(queue, a)
      // in a pool that needs no truncation it is left exactly then, and the dirty accounts are promoted and no others
      ensures reset.None? && old(Small()) ==>
                forall a :: a in dirty ==> PromotedAt(a) && (LeftAt(a) <==> old(StrandedAt(a)))
      ensures reset.None? && old(Small()) ==> forall a :: a !in dirty ==>
                At(pending, a) == old(At(pending, a)) && At(queue, a) == old(At(queue, a)) && PN(a) == old(PN(a))
      // a reset with room leaves nothing executable queued in an account whose virtual nonce the new state has reached
      ensures reset.Some? && old(Roomy(reset.value.reinject)) ==> forall a :: old(PN(a)) <= S(a) ==> !LeftAt(a)
      // and without reinjection it is left exactly if it was stuck, or only then if the pool is truncated
      ensures reset.Some? && reset.value.reinject == [] ==> forall a :: LeftAt(a) ==> old(StuckUnder(a, reset.value))
      ensures reset.Some? && reset.value.reinject == [] && old(Small()) ==>
                forall a :: LeftAt(a) <==> old(StuckUnder(a, reset.value))
      // stage by stage: a reset reinjects and serves everything, otherwise the dirty accounts are promoted; then the
      // pool is truncated
      ensures reset.Some? ==> Followed(reset.value, mid, served)
      ensures reset.None? ==> forall a :: a in dirty ==>
                Advanced(old(Now().Of(a)), served.Of(a), S(a), old(PN(a)), currentState.balance(a), currentMaxGas,
                         a in locals, config.accountQueue)
      ensures reset.None? ==> mid == old(Now()) && forall a :: a !in dirty ==> served.Of(a) == mid.Of(a)
      ensures CutDown(served.pending, pending, served.queue, queue, locals, config.accountSlots, config.globalSlots,
                      config.globalQueue)
      // a reset takes over the base fee of the next block, if it knows it
      ensures book.priced.baseFee
              == if reset.Some? && reset.value.baseFee.Some? then reset.value.baseFee else old(book.priced.baseFee)
    {
      hide Agree, TxBook.Valid, TxPool.RestsAt, At, Total, TxPool.PN, Left, Stuck, Promoted, TxPool.Roomy;
      hide TxPool.Usable, CutDown, Advanced;
      if reset.Some? {
        mid, served := FollowReset(reset.value);
      } else {
        mid := Now();
        served := ServeDirty(dirty);
        forall a | a in dirty && old(AheadAt(a))
          ensures !LeftAt(a) && S(a) !in At(queue, a)
        {
          assert RestsAt(a);
          NotLeft(a);
        }
      }
    }

    /** At rest, with nothing executable left, the state nonce is pending or free. */
    lemma NotLeft(a: Address)
      requires Sound() && RestsAt(a) && AheadAt(a) && !LeftAt(a)
      ensures S(a) !in At(queue, a)
    {
      ApartAt(pending, queue, book.txs, a);
      RangeRun(At(pending, a), S(a), PN(a));
    }

    // ----- what a sender sees -----

    /** Whatever else comes in, so few transactions that truncation has nothing to do. */
    ghost predicate Sparse(more: nat)
      reads book
    {
      |book.txs| + more <= config.globalSlots && |book.txs| + more <= config.globalQueue
    }

    /** The transaction is at the virtual nonce of its account, which is not behind, and nobody holds that nonce. */
    ghost predicate NextFree(tx: Tx)
      reads this, book, pendingNonces
    {
      Rivals(book.txs, tx) == {} && AheadAt(tx.from) && tx.nonce == PN(tx.from)
    }

    /** Add a batch, and promote the accounts it made dirty. */
    method AddAndPromote(txs: seq<Tx>, local: bool) returns (results: seq<Outcome>)
      requires Inv()
      modifies this, book, book.all, book.priced, pendingNonces
      ensures Inv() && |results| == |txs|
      ensures old(HasRoom(SlotSum(txs))) ==> forall i :: 0 <= i < |txs| ==>
                results[i] == Verdict(old(book.txs), txs, old(Invalids(txs, local)), config.priceBump, i)
      // with room and nothing to truncate, whoever gets the next nonce of an account that is not behind is pending
      ensures old(HasRoom(SlotSum(txs)) && Sparse(|txs|)) ==>
                var standing := Standing(old(book.txs), txs, old(Invalids(txs, local)), config.priceBump);
                forall tx :: tx in standing && old(NextFree(tx)) ==> Holds(At(pending, tx.from), tx)
    {
      hide Agree, TxBook.Valid, TxPool.RestsAt, TxPool.ResetsAt, At, TxPool.PN, Shed, CalmAt, Total, Left, Promoted;
      hide Checks, Judge, Swapped, Rivals, Standing, SlotSum, Usable, TxPool.Displaces, TxPool.AheadAt, Reported;
      var dirty;
      ghost var invalids := Invalids(txs, local);
      dirty, results := AddAll(txs, local);
      label added:
      assert txs[..|txs|] == txs && invalids[..|txs|] == invalids;
      StandingGrows(old(book.txs), txs, invalids, config.priceBump);
      ghost var due := old(HasRoom(SlotSum(txs)) && Sparse(|txs|));
      forall tx | due && old(NextFree(tx)) && tx in Standing(old(book.txs), txs, invalids, config.priceBump)
        ensures tx.from in dirty && NextInLine(tx)
      {
        var i := StandingNew(old(book.txs), txs, invalids, config.priceBump, tx);
        var j := NewcomerValid(old(book.txs), book.txs, txs, invalids, results, tx);
        var a := tx.from;
        CalmKeys(old(At(pending, a)), At(pending, a), old(At(queue, a)), At(queue, a), old(PN(a)), PN(a));
        Queued(tx);
      }
      var mid, served := Reorg(None, dirty);
      forall tx: Tx | due && tx.from in dirty && old@added(NextInLine(tx))
        ensures Holds(At(pending, tx.from), tx)
      {
        assert PromotedAt@added(tx.from);
        Promotes@added(tx);
      }
    }

    /** Tell what is known or has no sender from what is new. */
    method Sift(txs: seq<Tx>) returns (preset: seq<Option<PoolError>>, news: seq<Tx>)
      requires book.Valid()
      ensures |preset| == |txs| && news == News(txs, book.txs) && |news| <= |txs|
      ensures forall i :: 0 <= i < |txs| ==> preset[i] == Presorted(txs[i], book.txs)
    {
      hide TxBook.Valid, News, Presorted;
      preset, news := [], [];
      NewsNone(txs, book.txs);
      for i := 0 to |txs|
        invariant |preset| == i && news == News(txs[..i], book.txs) && |news| <= i
        invariant forall k :: 0 <= k < i ==> preset[k] == Presorted(txs[k], book.txs)
      {
        NewsNext(txs, book.txs, i);
        if book.Has(txs[i]) {
          preset := preset + [Some(AlreadyKnown)];
        } else if !txs[i].signed {
          preset := preset + [Some(InvalidSender)];
        } else {
          preset, news := preset + [None], news + [txs[i]];
        }
      }
      assert txs[..|txs|] == txs;
    }

    /** addTxs, waiting for the promotion: sort out what is known or has no sender, add the rest as a batch, and give
        every transaction its answer. */
    method AddTxs(txs: seq<Tx>, local: bool) returns (errs: seq<Option<PoolError>>, ghost results: seq<Outcome>)
      requires Inv()
      modifies this, book, book.all, book.priced, pendingNonces
      ensures Inv() && |errs| == |txs| && |results| == |News(txs, old(book.txs))|
      // every caller is told why its transaction was sorted out, or the answer to it
      ensures forall i :: 0 <= i < |txs| ==> Told(txs, old(book.txs), results, errs, i)
      ensures old(HasRoom(SlotSum(News(txs, book.txs)))) ==>
                var news, checks := News(txs, old(book.txs)), old(Invalids(News(txs, book.txs), local));
                forall k :: 0 <= k < |news| ==>
                  results[k] == Verdict(old(book.txs), news, checks, config.priceBump, k)
      // and whoever gets the next nonce of an account that is not behind is pending
      ensures old(HasRoom(SlotSum(News(txs, book.txs))) && Sparse(|txs|)) ==>
                var news, checks := News(txs, old(book.txs)), old(Invalids(News(txs, book.txs), local));
                forall tx :: tx in Standing(old(book.txs), news, checks, config.priceBump) && old(NextFree(tx)) ==>
                  Holds(At(pending, tx.from), tx)
    {
      hide Agree, TxBook.Valid, TxPool.RestsAt, At, TxPool.PN, Checks, Judge, Rivals, Standing, SlotSum, TxPool.AheadAt;
      hide News, Told, Presorted;
      var preset, news := Sift(txs);
      if news == [] {
        NoneNew(txs, book.txs, preset);
        NoneStand(book.txs, config.priceBump);
        return preset, [];
      }
      var answers := AddAndPromote(news, local);
      errs := Merge(preset, answers, txs, old(book.txs));
      results := answers;
    }

    /** At rest and not behind, with a payable transaction queued at the virtual nonce. */
    ghost predicate NextInLine(tx: Tx)
      reads this, pendingNonces
    {
      && RestsAt(tx.from) && S(tx.from) <= PN(tx.from) == tx.nonce && Holds(At(queue, tx.from), tx)
      && !Unpayable(tx, currentState.balance(tx.from), currentMaxGas)
    }

    lemma Queued(tx: Tx)
      requires Sound() && RestsAt(tx.from) && AheadAt(tx.from) && tx.nonce == PN(tx.from) && tx in book.txs
      requires !Unpayable(tx, currentState.balance(tx.from), currentMaxGas)
      ensures NextInLine(tx)
    {
      hide Agree, TxBook.Valid;
      WhereIs(pending, queue, book.txs, tx);
    }

    twostate lemma Promotes(tx: Tx)
      requires old(Sound() && NextInLine(tx)) && PromotedAt(tx.from)
      requires currentState == old(currentState) && currentMaxGas == old(currentMaxGas)
      ensures Holds(At(pending, tx.from), tx)
    {
      hide Agree, TxBook.Valid, At, TxPool.PN, Promoted, Range, Fresh, Disjoint;
      var a := tx.from;
      DisjointAt(old(pending), old(queue), old(book.txs), a);
      PromotedNext(old(At(pending, a)), At(pending, a), old(At(queue, a)), At(queue, a), S(a), old(PN(a)), PN(a),
                   currentState.balance(a), currentMaxGas, a in locals, config.accountQueue);
    }

    // ----- runs -----

    /** Raise the minimum tip and drop the remote transactions below it. */
    method ChangeGasPrice(price: nat)
      requires Inv()
      modifies this`gasPrice, this`pending, this`queue, book, book.all, book.priced, pendingNonces
      ensures Inv() && gasPrice == price && forall a :: old(AheadAt(a)) ==> AheadAt(a)
      // exactly the remote ones below a raised price leave
      ensures book.txs == old(book.txs) - old(BelowPrice(price))
      ensures book.all.remotes == old(book.all.remotes) - old(BelowPrice(price)) && book.SameFee()
    {
      hide Agree, TxBook.Valid, TxPool.RestsAt, TxPool.ResetsAt, TxPool.AheadAt, TxPool.PN, At, Shed;
      var was := gasPrice;
      gasPrice := price;
      if price > was {
        ghost var cheap := old(BelowPrice(price));
        var drop := book.all.RemotesBelowTip(price);
        forall tx
          ensures tx in drop <==> tx in cheap
        {
          assert tx in drop <==> tx in multiset(drop);
        }
        for i := 0 to |drop|
          invariant Sound() && book.leaving == {} && Resting() && gasPrice == price
          invariant forall a :: old(AheadAt(a)) ==> AheadAt(a)
          invariant book.txs == old(book.txs) - SetOf(drop[..i])
          invariant book.all.remotes == old(book.all.remotes) - SetOf(drop[..i]) && book.SameFee()
        {
          assert drop[..i + 1] == drop[..i] + [drop[i]];
          DropTx(drop[i], false);
        }
        assert drop[..|drop|] == drop;
        assert SetOf(drop) == cheap;
        book.Removed(|drop|);
      }
    }

    /** The remote transactions that a raised price leaves behind. */
    ghost function BelowPrice(price: nat): set<Tx>
      reads this`gasPrice, book, book.all
    {
      if price <= gasPrice then {} else set tx | tx in book.all.remotes && tx.tipCap < price
    }

    /** Drop the queues of accounts that are not local and have been silent for too long. */
    method EvictExpired(expired: set<Address>)
      requires Inv()
      modifies this`pending, this`queue, book, book.all, book.priced, pendingNonces
      ensures Inv() && pending == old(pending) && forall a :: PN(a) == old(PN(a))
      ensures forall a :: At(queue, a) == if a in expired && a !in locals then map[] else old(At(queue, a))
      ensures book.Fewer() && forall a :: old(AheadAt(a)) ==> AheadAt(a)
    {
      hide Agree, TxBook.Valid, Total, LowPart, TxPool.PN, Range, Fresh, At;
      book.Accounts();
      var todo := queue.Keys;
      forall a | a !in queue
        ensures At(queue, a) == map[]
      {
        NoList(queue, a);
      }
      while todo != {}
        invariant Sound() && book.leaving == {} && book.Fewer()
        invariant pending == old(pending) && forall a :: PN(a) == old(PN(a))
        invariant forall a :: a in todo ==> At(queue, a) == old(At(queue, a))
        invariant forall a :: a !in todo ==> At(queue, a) == if a in expired && a !in locals then map[]
                  else old(At(queue, a))
        decreases todo
      {
        var a :| a in todo;
        todo := todo - {a};
        if a !in locals && a in expired {
          DropQueuedTop(a, |At(queue, a)|);
        }
      }
      forall a
        ensures RestsAt(a)
      {
        assert old(RestsAt(a));
        NothingQueued(S(a), 0, 0);
      }
    }

    /** Every run: whatever is added, removed or evicted, and whatever heads are followed, the pool comes back to rest
        with its tables in agreement, and no virtual nonce falls behind the state while nothing is reinjected. */
    method Run(ops: seq<Operation>)
      requires Inv() && Advancing(currentState, ops)
      modifies this, book, book.all, book.priced, pendingNonces
      ensures Inv()
      ensures old(forall a :: AheadAt(a)) && NoneReinjected(ops) ==> forall a :: AheadAt(a)
    {
      hide Agree, TxBook.Valid, TxPool.RestsAt, TxPool.ResetsAt, TxPool.AheadAt, At, TxPool.PN, Total;
      hide TxPool.LeftAt, TxPool.PromotedAt, TxPool.StrandedAt, TxPool.StuckUnder, TxPool.Followed, CutDown, Advanced;
      hide Leads, Displaced, Costs, Dirtied, Reported, Answered, SlotSum, TxPool.Displaces, TxPool.HasRoom, Shed, CalmAt;
      for i := 0 to |ops|
        invariant Inv() && Advancing(currentState, ops[i..])
        invariant pendingNonces == old(pendingNonces) || fresh(pendingNonces)
        invariant old(forall a :: AheadAt(a)) && NoneReinjected(ops) ==> forall a :: AheadAt(a)
      {
        assert ops[i..][0] == ops[i] && ops[i..][1..] == ops[i + 1..];
        match ops[i]
        case AddTxs(txs, local) =>
          var dirty, results := AddAll(txs, local);
        case RunReorg(reset, dirty) =>
          var mid, served := Reorg(reset, dirty);
        case SetGasPrice(price) =>
          ChangeGasPrice(price);
        case EvictQueues(expired) =>
          EvictExpired(expired);
      }
    }
  }

  /** Nothing but tx comes in, and only if it may; what leaves was remote or the holder of its nonce. */
  ghost predicate Exchanged(txs: set<Tx>, remotes: set<Tx>, held: Option<Tx>, tx: Tx, txs': set<Tx>, ok: bool) {
    && (if ok then tx in txs' && txs' <= txs + {tx} else txs' <= txs)
    && forall t :: t in txs && t !in txs' ==> t in remotes || held == Some(t)
  }

  lemma NoneExchanged(txs: set<Tx>, remotes: set<Tx>, held: Option<Tx>, tx: Tx)
    ensures Exchanged(txs, remotes, held, tx, txs, false)
    ensures SetOf([]) == {} && txs - {} == txs && remotes - {} == remotes
  {
  }

  /** `gone` left to make room, and tx took its nonce if that was free. */
  lemma AdmittedSets(txs: set<Tx>, remotes: set<Tx>, gone: seq<Tx>, held: Option<Tx>, stays: Option<Tx>, tx: Tx,
                     txs': set<Tx>, free: bool, free': bool)
    requires tx !in txs && SetOf(gone) <= remotes <= txs && (held.Some? ==> held.value in txs)
    requires stays == if held.Some? && held.value in txs - SetOf(gone) then held else None
    requires (stays == held ==> free' == free) && (stays.None? ==> free') && (held.None? ==> free)
    requires txs' == if free' then txs - SetOf(gone) - HolderSet(stays) + {tx} else txs - SetOf(gone)
    ensures Exchanged(txs, remotes, held, tx, txs', free') && (free' <==> free || held.value !in txs')
    ensures gone != [] ==> txs - txs' != {}
    ensures gone == [] ==> stays == held && (free ==> txs' == txs - HolderSet(held) + {tx}) && (!free ==> txs' == txs)
  {
    if gone != [] { assert gone[0] in SetOf(gone) && gone[0] in txs - txs'; }
  }

  /** The dirty accounts are the senders of the members that were queued or made pending anew. */
  ghost predicate Dirtied(dirty: set<Address>, txs: seq<Tx>, results: seq<Outcome>)
    requires |results| <= |txs|
  {
    forall a :: a in dirty <==> exists i :: 0 <= i < |results| && results[i] == Ok(false) && txs[i].from == a
  }

  lemma NoneDirtied(txs: seq<Tx>)
    ensures Dirtied({}, txs, [])
  {
  }

  lemma DirtiedNext(dirty: set<Address>, txs: seq<Tx>, results: seq<Outcome>, r: Outcome)
    requires |results| < |txs| && Dirtied(dirty, txs, results)
    ensures Dirtied(if r == Ok(false) then dirty + {txs[|results|].from} else dirty, txs, results + [r])
  {
    var n := |results|;
    forall a | a in dirty
      ensures exists i :: 0 <= i <= n && (results + [r])[i] == Ok(false) && txs[i].from == a
    {
      var i :| 0 <= i < n && results[i] == Ok(false) && txs[i].from == a;
      assert (results + [r])[i] == Ok(false);
    }
    assert (results + [r])[n] == r;
  }

  lemma SameTurn(b: Pooled, b': Pooled, tx: Tx, invalid: Option<PoolError>, terms: Terms, terms': Terms)
    requires Turn(b, b', tx, invalid, terms) && (terms.local || terms.locals == terms'.locals)
    requires terms' == terms.(locals := terms'.locals)
    ensures Turn(b, b', tx, invalid, terms')
  {
  }

  function Over(slots: int, limit: int): nat { if slots > limit then slots - limit else 0 }

  /** What leaves without being replaced, and what the pool is then over its limit, is paid for by n new slots. */
  ghost predicate Costs(lost: set<Tx>, over: nat, over': nat, n: nat) { |lost| + over' <= over + n }

  ghost predicate Spends(txs: set<Tx>, txs': set<Tx>, held: set<Tx>, over: nat, over': nat, n: nat) {
    Costs(txs - txs' - held, over, over', n)
  }

  lemma SpendsNothing(txs: set<Tx>, held: set<Tx>, over: nat, n: nat)
    ensures Spends(txs, txs, held, over, over, n) && Costs({}, over, over, n)
  {
    assert txs - txs - held == {};
  }

  lemma CostsMore(txs: set<Tx>, now: set<Tx>, now': set<Tx>, batch: seq<Tx>, i: nat, over: nat, over': nat, over'': nat)
    requires i < |batch|
    requires |Displaced(txs, now', batch)| <= |Displaced(txs, now, batch)| + |now - now' - Rivals(now, batch[i])|
    requires Costs(Displaced(txs, now, batch), over, over', SlotSum(batch[..i]))
    requires Spends(now, now', Rivals(now, batch[i]), over', over'', NumSlots(batch[i]))
    ensures Costs(Displaced(txs, now', batch), over, over'', SlotSum(batch[..i + 1]))
  {
    SlotsSoFar(batch, i);
  }

  /** Picks that stop as soon as there is room for n more slots. */
  lemma EvictedFew(txs: set<Tx>, gone: seq<Tx>, n: nat, limit: nat)
    requires SetOf(gone) <= txs
    requires gone != [] ==> SlotsOf(txs) + n - SlotSum(gone[..|gone| - 1]) > limit
    ensures Costs(SetOf(gone), Over(SlotsOf(txs), limit), Over(SlotsOf(txs - SetOf(gone)) + n, limit), n)
  {
    hide NumSlots;
    SlotsApart(SetOf(gone), txs);
    SlotEach(SetOf(gone));
    PickedFew(gone);
  }

  /** What is known of a batch once its first members are answered. */
  ghost predicate Progress(b: Pooled, b': Pooled, over: nat, over': nat, txs: seq<Tx>, invalids: seq<Option<PoolError>>,
                           terms: Terms, results: seq<Outcome>, dirty: set<Address>)
    requires |results| <= |txs| == |invalids|
  {
    && Reported(b.txs, b'.txs, txs, invalids, results) && Dirtied(dirty, txs, results)
    && Leads(b, b', txs, invalids, terms, |results|)
    && b'.remotes <= b.remotes + SetOf(txs) && Displaced(b.txs, b'.txs, txs) <= b.remotes
    && Costs(Displaced(b.txs, b'.txs, txs), over, over', SlotSum(txs[..|results|]))
  }

  lemma NoProgress(b: Pooled, over: nat, txs: seq<Tx>, invalids: seq<Option<PoolError>>, terms: Terms)
    requires |txs| == |invalids|
    ensures Progress(b, b, over, over, txs, invalids, terms, [], {})
  {
    hide Reported, Dirtied, Leads, Displaced, Costs;
    NoneReported(b.txs, txs, invalids);
    NoneDisplaced(b.txs, txs);
    NoneDirtied(txs);
    LeadsNowhere(b, txs, invalids, terms);
    SpendsNothing({}, {}, over, SlotSum(txs[..0]));
  }

  lemma ProgressNext(b: Pooled, b': Pooled, b'': Pooled, over: nat, over': nat, over'': nat, txs: seq<Tx>,
                     invalids: seq<Option<PoolError>>, terms: Terms, terms': Terms, results: seq<Outcome>,
                     dirty: set<Address>, r: Outcome)
    requires |results| < |txs| == |invalids|
    requires Progress(b, b', over, over', txs, invalids, terms, results, dirty)
    requires var tx, invalid := txs[|results|], invalids[|results|];
             && Turn(b', b'', tx, invalid, terms')
             && Spends(b'.txs, b''.txs, Rivals(b'.txs, tx), over', over'', NumSlots(tx))
             && b''.txs <= b'.txs + {tx} && (r.Failed? ==> b''.txs <= b'.txs) && b''.remotes <= b'.remotes + {tx}
             && b'.txs - b''.txs - Rivals(b'.txs, tx) <= b'.remotes
             && (invalid.Some? ==> r == Failed(AlreadyKnown) || r.Error() == invalid)
    requires terms == terms'.(locals := terms.locals) && (terms.local || terms == terms')
    ensures Progress(b, b'', over, over'', txs, invalids, terms, results + [r],
                     if r == Ok(false) then dirty + {txs[|results|].from} else dirty)
  {
    hide Reported, Dirtied, Leads, Displaced, Costs, Spends, Turn, Rivals, NumSlots, SlotSum;
    var n := |results|;
    assert txs[n] in SetOf(txs);
    ReportedNext(b.txs, b'.txs, b''.txs, txs, invalids, results, r);
    DirtiedNext(dirty, txs, results, r);
    SameTurn(b', b'', txs[n], invalids[n], terms', terms);
    LeadsOn(b, b', b'', txs, invalids, terms, n);
    DisplacedNext(b.txs, b.remotes, b'.txs, b'.remotes, b''.txs, txs, n);
    CostsMore(b.txs, b'.txs, b''.txs, txs, n, over, over', over'');
  }

  lemma ProgressMade(b: Pooled, b': Pooled, over: nat, over': nat, txs: seq<Tx>, invalids: seq<Option<PoolError>>,
                     terms: Terms, results: seq<Outcome>, dirty: set<Address>)
    requires |results| == |txs| == |invalids| && Progress(b, b', over, over', txs, invalids, terms, results, dirty)
    ensures Reported(b.txs, b'.txs, txs, invalids, results) && Dirtied(dirty, txs, results)
    ensures Leads(b, b', txs, invalids, terms, |txs|) && Displaced(b.txs, b'.txs, txs) <= b.remotes
    ensures Costs(Displaced(b.txs, b'.txs, txs), over, over', SlotSum(txs))
  {
    assert txs[..|txs|] == txs;
  }

  lemma AdmittedCost(txs: set<Tx>, gone: seq<Tx>, held: Option<Tx>, stays: Option<Tx>, tx: Tx, txs': set<Tx>,
                     limit: nat, over: nat, slots: int, slots': int)
    requires Costs(SetOf(gone), over, Over(slots + NumSlots(tx), limit), NumSlots(tx))
    requires stays in {held, None} && slots' <= slots + NumSlots(tx)
    requires txs' == txs - SetOf(gone) || txs' == txs - SetOf(gone) - HolderSet(stays) + {tx}
    ensures Spends(txs, txs', HolderSet(held), over, Over(slots', limit), NumSlots(tx))
  {
    hide NumSlots;
    NoMore(txs - txs' - HolderSet(held), SetOf(gone));
  }

  lemma {:induction false} PickedFew(gone: seq<Tx>)
    ensures |SetOf(gone)| <= |gone| <= SlotSum(gone) && (gone != [] ==> |gone| <= SlotSum(gone[..|gone| - 1]) + 1)
  {
    hide NumSlots;
    if gone == [] {
      assert SetOf(gone) == {};
    } else {
      var rest, last := gone[..|gone| - 1], gone[|gone| - 1];
      PickedFew(rest);
      FewestSlots(last);
      assert SetOf(gone) == SetOf(rest) + {last};
    }
  }

  lemma StillLost(txs: set<Tx>, was: set<Tx>, now: set<Tx>, batch: seq<Tx>, i: nat)
    requires i < |batch| && now <= was + {batch[i]}
    ensures txs !! SetOf(batch) && txs - was != {} ==> txs - now != {}
  {
    if txs !! SetOf(batch) && txs - was != {} {
      var t :| t in txs - was;
      assert batch[i] in SetOf(batch);
      assert t in txs - now;
    }
  }

  lemma SlotsSoFar(txs: seq<Tx>, i: nat)
    requires i < |txs|
    ensures SlotSum(txs[..i + 1]) == SlotSum(txs[..i]) + NumSlots(txs[i]) && SlotSum(txs[..i + 1]) <= SlotSum(txs)
  {
    assert txs[..i + 1][..i] == txs[..i];
    SlotsGrow(txs, i + 1);
  }

  lemma {:induction false} SlotsGrow(txs: seq<Tx>, k: nat)
    requires k <= |txs|
    ensures SlotSum(txs[..k]) <= SlotSum(txs)
  {
    if k < |txs| {
      var front := txs[..|txs| - 1];
      assert front[..k] == txs[..k];
      SlotsGrow(front, k);
    } else {
      assert txs[..k] == txs;
    }
  }

  lemma SlotsSwapped(txs: set<Tx>, held: set<Tx>, tx: Tx)
    requires tx !in txs
    ensures SlotsOf(txs - held + {tx}) <= SlotsOf(txs) + NumSlots(tx)
  {
    SlotsShrink(txs - held, txs);
    SlotsWith(txs - held, tx);
  }

  lemma {:induction false} SlotsShrink(a: set<Tx>, b: set<Tx>)
    requires a <= b
    ensures SlotsOf(a) <= SlotsOf(b)
    decreases |b|
  {
    if a != b {
      var tx :| tx in b && tx !in a;
      SlotsWithout(b, tx);
      SlotsShrink(a, b - {tx});
    }
  }

}
