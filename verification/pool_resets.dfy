/** What becomes of the pooled transactions when a new head is followed: reinjection, then promotion and demotion of
    every account, then truncation. */
module PoolResets {
  import opened Transactions
  import opened TxLists
  import opened PoolStructure
  import opened PoolNonces
  import opened PoolTurns
  import opened PoolFairness
  import opened PoolBatches
  import opened PricedLists

  /** The two tables at some point of the run, and what is pooled then. */
  datatype Stage = Stage(pending: Shelf, queue: Shelf, txs: set<Tx>) {
    function Of(a: Address): Lists { Lists(At(pending, a), At(queue, a)) }

    ghost predicate Agrees() { Settled(pending, queue, txs) }
  }

  // ----- reinjection -----

  /** What left although no member of the batch is of its account and nonce. */
  ghost function Displaced(txs: set<Tx>, now: set<Tx>, batch: seq<Tx>): set<Tx> {
    set t | t in txs && t !in now && forall i :: 0 <= i < |batch| ==> t !in Rivals(txs, batch[i])
  }

  lemma NoneDisplaced(txs: set<Tx>, batch: seq<Tx>)
    ensures Displaced(txs, txs, batch) == {}
  {
  }

  /** One more member: only what it displaced itself is added. */
  lemma DisplacedNext(txs: set<Tx>, remotes: set<Tx>, now: set<Tx>, remotes': set<Tx>, now': set<Tx>, batch: seq<Tx>,
                      i: nat)
    requires i < |batch| && remotes' <= remotes + SetOf(batch) && now - now' - Rivals(now, batch[i]) <= remotes'
    ensures Displaced(txs, now, batch) <= remotes ==> Displaced(txs, now', batch) <= remotes
    ensures |Displaced(txs, now', batch)| <= |Displaced(txs, now, batch)| + |now - now' - Rivals(now, batch[i])|
  {
    var lost := now - now' - Rivals(now, batch[i]);
    var was, more := Displaced(txs, now, batch), Displaced(txs, now', batch);
    forall t | t in more && t !in was
      ensures t in lost && t in remotes
    {
      assert t !in Rivals(txs, batch[i]) && t in Rivals(txs, t);
    }
    NoMore(more, was + lost);
    NoMore(lost - was, lost);
    assert was + lost == was + (lost - was);
  }

  /** The pooled transactions, and which of them are remote. */
  datatype Pooled = Pooled(txs: set<Tx>, remotes: set<Tx>)

  /** What the pool goes by while a batch is added: its slots, the price bump, the base fee, and who is local. */
  datatype Terms = Terms(limit: nat, priceBump: nat, baseFee: Option<nat>, local: bool, locals: set<Address>)

  /** A full pool turns a remote transaction away only if no remote one is clearly cheaper, or if evicting all of them
      would not make room. */
  ghost predicate DoorClosed(b: Pooled, tx: Tx, terms: Terms) {
    && !terms.local && tx.from !in terms.locals
    && (NoneBelow(b.remotes, terms.baseFee, tx)
        || SlotsOf(b.txs) - SlotsOf(b.remotes) + NumSlots(tx) > terms.limit)
  }

  /** One member of a batch. A known or invalid one changes nothing; one that finds room is answered by what is pooled;
      any other is turned away at the door or makes remote ones leave, and then gets in exactly if it outbids the holder
      of its nonce or that one left. */
  ghost predicate Turn(b: Pooled, b': Pooled, tx: Tx, invalid: Option<PoolError>, terms: Terms) {
    if tx in b.txs || invalid.Some? then b' == b
    else if SlotsOf(b.txs) + NumSlots(tx) <= terms.limit then
      b'.txs == Swapped(b.txs, tx, Judge(b.txs, tx, invalid, terms.priceBump))
    else
      || (b' == b && DoorClosed(b, tx, terms))
      || (&& b'.txs <= b.txs + {tx} && b.txs - b'.txs - Rivals(b.txs, tx) <= b.remotes
          && (tx in b'.txs <==> forall t :: t in Rivals(b.txs, tx) && t in b'.txs ==> Outbids(tx, t, terms.priceBump)))
  }

  /** The first members of a batch, one turn after the other. */
  ghost predicate Turns(trace: seq<Pooled>, batch: seq<Tx>, invalids: seq<Option<PoolError>>, terms: Terms)
    requires |batch| == |invalids|
  {
    && 0 < |trace| <= |batch| + 1
    && forall i :: 0 <= i < |trace| - 1 ==> Turn(trace[i], trace[i + 1], batch[i], invalids[i], terms)
  }

  /** The first n members led from one to the other. */
  ghost predicate Leads(b: Pooled, b': Pooled, batch: seq<Tx>, invalids: seq<Option<PoolError>>, terms: Terms, n: nat)
    requires |batch| == |invalids|
  {
    exists trace :: Turns(trace, batch, invalids, terms) && |trace| == n + 1 && trace[0] == b && trace[n] == b'
  }

  lemma LeadsNowhere(b: Pooled, batch: seq<Tx>, invalids: seq<Option<PoolError>>, terms: Terms)
    requires |batch| == |invalids|
    ensures Leads(b, b, batch, invalids, terms, 0)
  {
    assert Turns([b], batch, invalids, terms);
  }

  lemma LeadsOn(b: Pooled, b': Pooled, b'': Pooled, batch: seq<Tx>, invalids: seq<Option<PoolError>>, terms: Terms,
                n: nat)
    requires n < |batch| == |invalids| && Leads(b, b', batch, invalids, terms, n)
    requires Turn(b', b'', batch[n], invalids[n], terms)
    ensures Leads(b, b'', batch, invalids, terms, n + 1)
  {
    hide Turn;
    var trace :| Turns(trace, batch, invalids, terms) && |trace| == n + 1 && trace[0] == b && trace[n] == b';
    assert Turns(trace + [b''], batch, invalids, terms);
  }

  /** The turn of a valid new member, in terms of the holder of its nonce. */
  lemma TurnHeld(b: Pooled, b': Pooled, tx: Tx, terms: Terms, held: Option<Tx>)
    requires Rivals(b.txs, tx) == HolderSet(held) && tx !in b.txs
    requires b'.txs <= b.txs + {tx} && b.txs - b'.txs - HolderSet(held) <= b.remotes
    requires SlotsOf(b.txs) + NumSlots(tx) > terms.limit
    requires tx !in b'.txs <==> held.Some? && held.value in b'.txs && !Outbids(tx, held.value, terms.priceBump)
    ensures Turn(b, b', tx, None, terms)
  {
    hide Outbids;
    assert forall t :: t in Rivals(b.txs, tx) <==> held == Some(t);
  }

  /** What reinjecting a batch does. Each member had its turn, and what leaves without a rival in the batch was remote
      and at most so many. With room, what is pooled is decided by what was pooled before, and no pending nonce
      moves. */
  ghost predicate Reinjected(was: Stage, remotes: set<Tx>, now: Stage, batch: seq<Tx>, invalids: seq<Option<PoolError>>,
                             terms: Terms, room: bool, most: nat)
    requires |batch| == |invalids|
  {
    && now.Agrees() && now.txs <= was.txs + SetOf(batch) && (batch == [] ==> now == was)
    && (exists left :: Leads(Pooled(was.txs, remotes), Pooled(now.txs, left), batch, invalids, terms, |batch|))
    && Displaced(was.txs, now.txs, batch) <= remotes && |Displaced(was.txs, now.txs, batch)| <= most
    && (room ==> now.txs == Standing(was.txs, batch, invalids, terms.priceBump)
                 && forall a :: At(now.pending, a).Keys == At(was.pending, a).Keys)
  }

  /** The nonces of an account that are in use. */
  ghost function NoncesOf(txs: set<Tx>, a: Address): set<nat> { set t | t in txs && t.from == a :: t.nonce }

  /** The pooled transactions of an account at some of its nonces. */
  ghost function Filed(txs: set<Tx>, a: Address, nonces: set<nat>): Items {
    map n | n in nonces * NoncesOf(txs, a) :: var t :| t in txs && t.from == a && t.nonce == n; t
  }

  /** The lists of an account of which these nonces are pending and all others queued. */
  ghost function FiledLists(txs: set<Tx>, a: Address, nonces: set<nat>): Lists {
    Lists(Filed(txs, a, nonces), Filed(txs, a, NoncesOf(txs, a) - nonces))
  }

  /** What is pooled and which nonces are pending decide both lists of an account. */
  lemma FiledIs(l: Stage, a: Address)
    requires l.Agrees()
    ensures l.Of(a) == FiledLists(l.txs, a, At(l.pending, a).Keys)
  {
    hide Settled, At;
    var m, q, nonces := At(l.pending, a), At(l.queue, a), NoncesOf(l.txs, a);
    ApartAt(l.pending, l.queue, l.txs, a);
    forall n
      ensures n in m ==> n in nonces && Filed(l.txs, a, m.Keys)[n] == m[n]
      ensures n in q <==> n in nonces - m.Keys
      ensures n in q ==> Filed(l.txs, a, nonces - m.Keys)[n] == q[n]
    {
      HolderMatches(l.pending, l.queue, l.txs, a, n);
      forall t | t in l.txs && t.from == a && t.nonce == n
        ensures (n in m && m[n] == t) || (n in q && q[n] == t)
      {
        WhereIs(l.pending, l.queue, l.txs, t);
      }
    }
    assert Filed(l.txs, a, m.Keys) == m;
    assert Filed(l.txs, a, nonces - m.Keys) == q;
  }

  // ----- truncation -----

  /** What truncating both tables may do. Each is as it was if it fits. A pending table that does not is cut fairly and
      no further than the last round took it; of a queue that does not, no more than the excess is dropped, and the
      queues of local accounts are as they were. */
  ghost predicate CutDown(p0: Shelf, p: Shelf, q0: Shelf, q: Shelf, locals: set<Address>, slots: nat, maxPending: nat,
                          maxQueued: nat) {
    && (Total(p0) <= maxPending ==> p == p0)
    && (exists offs :: FairCut(p0, p, locals, slots, offs)
                       && (Total(p0) > maxPending ==> maxPending < Total(p) + |offs|))
    && (Total(q0) <= maxQueued ==> q == q0) && (Total(q0) > maxQueued ==> Total(q) >= maxQueued)
    && Draining(q0, q, locals, {}, 0)
  }

  /** Why a transaction was cut: its account is not local, the table did not fit, everything that is left of the
      account in that table has a lower nonce, and in pending that is at least the allowance. */
  ghost predicate Cut(tx: Tx, was: Lists, now: Lists, local: bool, slots: nat, fullPending: bool, fullQueue: bool) {
    && !local
    && if Holds(was.pending, tx) then
         fullPending && slots <= |now.pending| && forall n :: n in now.pending ==> n < tx.nonce
       else Holds(was.queue, tx) && fullQueue && forall n :: n in now.queue ==> n < tx.nonce
  }

  /** Truncation cuts nothing for any other reason. */
  lemma CutFor(p0: Shelf, p: Shelf, q0: Shelf, q: Shelf, locals: set<Address>, slots: nat, maxPending: nat,
               maxQueued: nat, tx: Tx)
    requires CutDown(p0, p, q0, q, locals, slots, maxPending, maxQueued)
    requires Holds(At(p0, tx.from), tx) || Holds(At(q0, tx.from), tx)
    requires !Holds(At(p, tx.from), tx) && !Holds(At(q, tx.from), tx)
    ensures var a := tx.from;
            Cut(tx, Lists(At(p0, a), At(q0, a)), Lists(At(p, a), At(q, a)), a in locals, slots, Total(p0) > maxPending,
                Total(q0) > maxQueued)
  {
    hide Total, At, Distinct;
    var a := tx.from;
    if Holds(At(p0, a), tx) {
      var offs :| FairCut(p0, p, locals, slots, offs) && (Total(p0) > maxPending ==> maxPending < Total(p) + |offs|);
      assert a in offs && LowPart(At(p, a), At(p0, a));
    } else {
      assert LowPart(At(q, a), At(q0, a));
    }
  }

  // ----- the whole run -----

  /** Served and then truncated, an account keeps a transaction that was pooled after reinjection, unless it is too old
      or too dear for the new head, beyond the limit of a queue that is not local, or cut. */
  lemma LeavesFor(mid: Stage, served: Stage, now: Stage, locals: set<Address>, slots: nat, maxPending: nat,
                  maxQueued: nat, s: nat, onState: bool, balance: int, maxGas: nat, limit: nat, tx: Tx)
    requires mid.Agrees() && now.Agrees() && tx in mid.txs && tx !in now.txs
    requires var a := tx.from; served.Of(a) == Served(mid.Of(a), s, onState, balance, maxGas, a in locals, limit)
    requires CutDown(served.pending, now.pending, served.queue, now.queue, locals, slots, maxPending, maxQueued)
    ensures var a := tx.from;
            || Expelled(tx, served.Of(a), s, balance, maxGas, a in locals, limit)
            || Cut(tx, served.Of(a), now.Of(a), a in locals, slots, Total(served.pending) > maxPending,
                   Total(served.queue) > maxQueued)
  {
    hide Settled, At, Total, Served, CutDown, Expelled, Cut;
    var a := tx.from;
    WhereIs(mid.pending, mid.queue, mid.txs, tx);
    DisjointAt(mid.pending, mid.queue, mid.txs, a);
    ServedKeeps(mid.Of(a), s, onState, balance, maxGas, a in locals, limit, tx);
    HolderMatches(now.pending, now.queue, now.txs, a, tx.nonce);
    if Holds(At(served.pending, a), tx) || Holds(At(served.queue, a), tx) {
      CutFor(served.pending, now.pending, served.queue, now.queue, locals, slots, maxPending, maxQueued, tx);
    }
  }
}
