/** What the redundant tables of the transaction pool must agree on, and the moves that keep the agreement:
    a transaction is taken out of a list, and then dropped from the lookup or landed in the other list. */
module PoolStructure {
  import opened Transactions
  import opened TxLists

  /** One list per account. */
  type Shelf = map<Address, List>

  function At(m: Shelf, a: Address): Items { if a in m then m[a].items else map[] }

  lemma NoList(m: Shelf, a: Address)
    requires a !in m
    ensures At(m, a) == map[]
  {
  }

  /** Replace the list of one account, deleting the entry when the list is empty. */
  function Shelve(m: Shelf, a: Address, l: List): (r: Shelf)
    ensures At(r, a) == l.items && forall x :: x != a ==> At(r, x) == At(m, x)
  {
    if l.items == map[] then m - {a} else m[a := l]
  }

  /** Who holds a nonce of an account, pending or queued. */
  function HolderIn(p: Shelf, q: Shelf, a: Address, n: nat): Option<Tx> {
    if n in At(p, a) then Some(At(p, a)[n]) else if n in At(q, a) then Some(At(q, a)[n]) else None
  }

  /** Every list is nonempty, keeps its caps and holds only transactions of its own account. */
  ghost predicate Tidy(m: Shelf, strict: bool) {
    forall a :: a in m ==>
      && m[a].strict == strict && m[a].Valid() && m[a].items != map[]
      && forall n :: n in m[a].items ==> m[a].items[n].from == a
  }

  /** No account has the same nonce in both shelves. */
  ghost predicate Apart(p: Shelf, q: Shelf) {
    forall a, n :: n in At(p, a) ==> n !in At(q, a)
  }

  /** The transactions of account a that are between lists. */
  ghost predicate InFlight(p: Shelf, q: Shelf, a: Address, flight: Items) {
    Keyed(flight) && forall n :: n in flight ==> flight[n].from == a && n !in At(p, a) && n !in At(q, a)
  }

  ghost predicate Somewhere(p: Shelf, q: Shelf, a: Address, flight: Items, tx: Tx) {
    Holds(At(p, tx.from), tx) || Holds(At(q, tx.from), tx) || (tx.from == a && Holds(flight, tx))
  }

  /** Pending, queue and the transactions in flight are disjoint and together exactly the lookup. */
  ghost predicate Agree(p: Shelf, q: Shelf, txs: set<Tx>, a: Address, flight: Items) {
    && Tidy(p, true) && Tidy(q, false) && Apart(p, q) && InFlight(p, q, a, flight)
    && (forall tx :: tx in txs <==> Somewhere(p, q, a, flight, tx))
  }

  lemma ListsValid(p: Shelf, q: Shelf, txs: set<Tx>, a: Address, flight: Items)
    requires Agree(p, q, txs, a, flight)
    ensures forall b :: b in p ==> p[b].strict && p[b].Valid()
    ensures forall b :: b in q ==> !q[b].strict && q[b].Valid()
    ensures EmptyStrict.Valid() && EmptyLoose.Valid()
  {
  }

  lemma FlightKnown(p: Shelf, q: Shelf, txs: set<Tx>, a: Address, flight: Items, n: nat)
    requires Agree(p, q, txs, a, flight) && n in flight
    ensures Holds(flight, flight[n]) && flight[n].from == a && flight[n] in txs && n !in At(p, a) && n !in At(q, a)
    ensures n == flight[n].nonce
  {
    assert Somewhere(p, q, a, flight, flight[n]);
  }

  /** Nothing in flight. */
  ghost predicate Settled(p: Shelf, q: Shelf, txs: set<Tx>) { Agree(p, q, txs, 0, map[]) }

  lemma NothingInFlight(p: Shelf, q: Shelf, txs: set<Tx>, a: Address, b: Address)
    requires Agree(p, q, txs, a, map[])
    ensures Agree(p, q, txs, b, map[])
  {
    forall tx
      ensures tx in txs <==> Somewhere(p, q, b, map[], tx)
    {
      assert tx in txs <==> Somewhere(p, q, a, map[], tx);
    }
  }

  /** A part of a list. */
  ghost predicate PartOf(l: List, whole: List) {
    l.strict == whole.strict && l.Valid() && Within(l.items, whole.items)
  }

  lemma TidyShelve(m: Shelf, strict: bool, a: Address, l: List)
    requires Tidy(m, strict) && l.strict == strict && l.Valid() && forall n :: n in l.items ==> l.items[n].from == a
    ensures Tidy(Shelve(m, a, l), strict)
  {
  }

  lemma TakeFromPending(p: Shelf, q: Shelf, txs: set<Tx>, a: Address, l: List)
    requires Agree(p, q, txs, a, map[]) && a in p && PartOf(l, p[a])
    ensures Agree(Shelve(p, a, l), q, txs, a, p[a].items - l.items.Keys)
  {
    TidyShelve(p, true, a, l);
    var p', flight := Shelve(p, a, l), p[a].items - l.items.Keys;
    forall tx
      ensures tx in txs <==> Somewhere(p', q, a, flight, tx)
    {
      assert tx in txs <==> Somewhere(p, q, a, map[], tx);
    }
  }

  lemma TakeFromQueue(p: Shelf, q: Shelf, txs: set<Tx>, a: Address, l: List)
    requires Agree(p, q, txs, a, map[]) && a in q && PartOf(l, q[a])
    ensures Agree(p, Shelve(q, a, l), txs, a, q[a].items - l.items.Keys)
  {
    TidyShelve(q, false, a, l);
    var q', flight := Shelve(q, a, l), q[a].items - l.items.Keys;
    forall tx
      ensures tx in txs <==> Somewhere(p, q', a, flight, tx)
    {
      assert tx in txs <==> Somewhere(p, q, a, map[], tx);
    }
  }

  /** Dropping some of what is in flight from the lookup. */
  lemma DropFlight(p: Shelf, q: Shelf, txs: set<Tx>, a: Address, flight: Items, gone: Items)
    requires Agree(p, q, txs, a, flight) && Within(gone, flight)
    ensures Agree(p, q, txs - Txs(gone), a, flight - gone.Keys)
  {
    forall tx
      ensures tx in txs - Txs(gone) <==> Somewhere(p, q, a, flight - gone.Keys, tx)
    {
      assert tx in txs <==> Somewhere(p, q, a, flight, tx);
      if tx in Txs(gone) {
        var n :| n in gone && gone[n] == tx;
        assert Holds(flight, tx) && tx.from == a;
      }
      if Holds(flight, tx) && tx.nonce in gone { assert gone[tx.nonce] == tx; }
    }
  }

  /** One transaction fewer in flight, because it left the lookup. */
  lemma DropOne(p: Shelf, q: Shelf, txs: set<Tx>, a: Address, flight: Items, tx: Tx)
    requires Agree(p, q, txs, a, flight) && Holds(flight, tx)
    ensures Agree(p, q, txs - {tx}, a, flight - {tx.nonce})
  {
    assert tx.from == a;
    forall x
      ensures x in txs - {tx} <==> Somewhere(p, q, a, flight - {tx.nonce}, x)
    {
      assert x in txs <==> Somewhere(p, q, a, flight, x);
    }
  }

  /** The transaction filed under a nonce, as a set. */
  function HeldAt(m: Items, n: nat): set<Tx> { if n in m then {m[n]} else {} }

  lemma SwapSets(txs: set<Tx>, txs': set<Tx>, m: Items, tx: Tx)
    requires txs' == (if tx.nonce in m then txs - {m[tx.nonce]} else txs) + {tx}
    ensures txs' == (txs - {tx}) - HeldAt(m, tx.nonce) + {tx} == txs - HeldAt(m, tx.nonce) + {tx}
  {
  }

  /** Filing tx in list m of its account takes the holder of its nonce out and changes nothing else;
      `other` stands for the other shelf. */
  lemma LandMember(m: Items, m': Items, other: Items, flight: Items, tx: Tx, x: Tx)
    requires Keyed(m) && m' == m[tx.nonce := tx] && tx.nonce !in other && tx.nonce !in flight
    ensures Holds(m', x) || Holds(other, x) || Holds(flight, x) <==>
            x == tx || (x !in HeldAt(m, tx.nonce) && (Holds(m, x) || Holds(other, x) || Holds(flight, x)))
  {
  }

  /** Landing a transaction in the queue in place of the holder of its nonce, if any. */
  lemma LandInQueue(p: Shelf, q: Shelf, txs: set<Tx>, flight: Items, tx: Tx, l: List)
    requires Agree(p, q, txs, tx.from, flight) && tx.nonce !in At(p, tx.from) && tx.nonce !in flight
    requires !l.strict && l.Valid() && l.items == At(q, tx.from)[tx.nonce := tx]
    ensures Agree(p, Shelve(q, tx.from, l), txs - HeldAt(At(q, tx.from), tx.nonce) + {tx}, tx.from, flight)
  {
    var a, q' := tx.from, Shelve(q, tx.from, l);
    TidyShelve(q, false, a, l);
    forall x
      ensures x in txs - HeldAt(At(q, a), tx.nonce) + {tx} <==> Somewhere(p, q', a, flight, x)
    {
      assert x in txs <==> Somewhere(p, q, a, flight, x);
      assert x in HeldAt(At(q, a), tx.nonce) ==> x.from == a;
      if x.from == a { LandMember(At(q, a), At(q', a), At(p, a), flight, tx, x); }
    }
  }

  lemma LandInPending(p: Shelf, q: Shelf, txs: set<Tx>, flight: Items, tx: Tx, l: List)
    requires Agree(p, q, txs, tx.from, flight) && tx.nonce !in At(q, tx.from) && tx.nonce !in flight
    requires l.strict && l.Valid() && l.items == At(p, tx.from)[tx.nonce := tx]
    ensures Agree(Shelve(p, tx.from, l), q, txs - HeldAt(At(p, tx.from), tx.nonce) + {tx}, tx.from, flight)
  {
    var a, p' := tx.from, Shelve(p, tx.from, l);
    TidyShelve(p, true, a, l);
    forall x
      ensures x in txs - HeldAt(At(p, a), tx.nonce) + {tx} <==> Somewhere(p', q, a, flight, x)
    {
      assert x in txs <==> Somewhere(p, q, a, flight, x);
      assert x in HeldAt(At(p, a), tx.nonce) ==> x.from == a;
      if x.from == a { LandMember(At(p, a), At(p', a), At(q, a), flight, tx, x); }
    }
  }

  /** A map in two parts. */
  ghost predicate Parted(m: Items, left: Items, done: Items) {
    left.Keys !! done.Keys && left.Keys + done.Keys == m.Keys && Within(left, m) && Within(done, m)
  }

  /** s lists members of m by nonces that rise by one from start. */
  ghost predicate Rising(s: seq<Tx>, m: Items, start: nat) {
    forall i :: 0 <= i < |s| ==> Holds(m, s[i]) && s[i].nonce == start + i
  }

  lemma RisingNone(m: Items, start: nat)
    ensures Rising([], m, start)
  {
  }

  /** One turn of promoting a run: the next nonce leaves what is left and joins what is done. */
  lemma RunTurn(p: Shelf, q: Shelf, txs: set<Tx>, a: Address, run: Items, left: Items, done: Items, base: Items,
                promoted: seq<Tx>, start: nat, k: nat, end: nat)
    requires Agree(p, q, txs, a, left) && Range(left, k, end) && start <= k < end && Parted(run, left, done)
    requires |promoted| == k - start && Rising(promoted, run, start)
    ensures k in left && Range(left - {k}, k + 1, end) && Parted(run, left - {k}, done[k := left[k]])
    ensures (base + done)[k := left[k]] == base + done[k := left[k]] && Rising(promoted + [left[k]], run, start)
  {
    hide Agree, Parted, Rising;
    assert k in left && Range(left - {k}, k + 1, end);
    FlightKnown(p, q, txs, a, left, k);
    PartedStep(run, left, done, k);
    MergeOne(base, done, k, left[k]);
    RisingNext(promoted, run, left, done, start, k);
  }

  lemma RisingNext(s: seq<Tx>, m: Items, left: Items, done: Items, start: nat, n: nat)
    requires Rising(s, m, start) && Parted(m, left, done) && n in left && left[n].nonce == n == start + |s|
    ensures Rising(s + [left[n]], m, start)
  {
  }

  lemma PartedStart(m: Items, q: Items)
    ensures Parted(m, m, map[]) && q + map[] == q
  {
  }

  lemma WithinStep(m: Items, left: Items, done: Items, n: nat)
    requires Within(left, m) && Within(done, m) && n in left
    ensures Within(left - {n}, m) && Within(done[n := left[n]], m)
  {
  }

  lemma PartedStep(m: Items, left: Items, done: Items, n: nat)
    requires Parted(m, left, done) && n in left
    ensures Parted(m, left - {n}, done[n := left[n]]) && n in m && |left - {n}| < |left|
  {
    hide Within;
    var l', d' := left - {n}, done[n := left[n]];
    assert l'.Keys == left.Keys - {n} && d'.Keys == done.Keys + {n};
    assert l'.Keys + d'.Keys == left.Keys + done.Keys;
    WithinStep(m, left, done, n);
  }

  lemma MergeOne(q: Items, done: Items, n: nat, tx: Tx)
    ensures (q + done)[n := tx] == q + done[n := tx]
  {
  }

  lemma PartedDone(m: Items, done: Items)
    requires Parted(m, map[], done)
    ensures done == m
  {
    assert done.Keys == m.Keys;
  }

  /** A pooled transaction holds its nonce in exactly one of the two lists of its account. */
  lemma WhereIs(p: Shelf, q: Shelf, txs: set<Tx>, tx: Tx)
    requires Settled(p, q, txs) && tx in txs
    ensures tx.nonce in At(p, tx.from) ==> Holds(At(p, tx.from), tx)
    ensures tx.nonce !in At(p, tx.from) ==> tx.from in q && Holds(At(q, tx.from), tx)
  {
    assert Somewhere(p, q, 0, map[], tx);
  }

  /** Removing a pending transaction by nonce removes that transaction and frees those after it. */
  lemma RemovePending(p: Shelf, q: Shelf, txs: set<Tx>, tx: Tx)
    requires Settled(p, q, txs) && Holds(At(p, tx.from), tx)
    ensures var a := tx.from; var l := p[a].Remove(tx.nonce); var invalids := p[a].items - {tx.nonce} - l.items.Keys;
            && Agree(Shelve(p, a, l), q, txs - {tx}, a, invalids)
            && l.items == Below(p[a].items, tx.nonce) && invalids == AtLeast(p[a].items, tx.nonce + 1)
  {
    var a := tx.from;
    var l := p[a].Remove(tx.nonce);
    var flight := p[a].items - l.items.Keys;
    NothingInFlight(p, q, txs, 0, a);
    PartValid(p[a], l.items);
    TakeFromPending(p, q, txs, a, l);
    DropOne(Shelve(p, a, l), q, txs, a, flight, tx);
    assert flight - {tx.nonce} == p[a].items - {tx.nonce} - l.items.Keys;
  }

  lemma RemoveQueued(p: Shelf, q: Shelf, txs: set<Tx>, tx: Tx)
    requires Settled(p, q, txs) && Holds(At(q, tx.from), tx)
    ensures Settled(p, Shelve(q, tx.from, q[tx.from].Remove(tx.nonce)), txs - {tx})
    ensures q[tx.from].Remove(tx.nonce).items == At(q, tx.from) - {tx.nonce}
  {
    var a := tx.from;
    var l := q[a].Remove(tx.nonce);
    var flight := q[a].items - l.items.Keys;
    NothingInFlight(p, q, txs, 0, a);
    PartValid(q[a], l.items);
    TakeFromQueue(p, q, txs, a, l);
    DropOne(p, Shelve(q, a, l), txs, a, flight, tx);
    assert flight - {tx.nonce} == map[];
    NothingInFlight(p, Shelve(q, a, l), txs - {tx}, a, 0);
  }

  /** The transaction filed under a nonce is pooled, and is of that account and nonce. */
  lemma HolderMatches(p: Shelf, q: Shelf, txs: set<Tx>, a: Address, n: nat)
    requires Settled(p, q, txs)
    ensures n in At(p, a) ==> At(p, a)[n].from == a && At(p, a)[n].nonce == n && At(p, a)[n] in txs
    ensures n in At(q, a) ==> At(q, a)[n].from == a && At(q, a)[n].nonce == n && At(q, a)[n] in txs
  {
    if n in At(p, a) { assert Somewhere(p, q, 0, map[], At(p, a)[n]); }
    if n in At(q, a) { assert Somewhere(p, q, 0, map[], At(q, a)[n]); }
  }

  /** The holder of a nonce is the one pooled transaction of that account and nonce. */
  lemma HolderPooled(p: Shelf, q: Shelf, txs: set<Tx>, a: Address, n: nat)
    requires Settled(p, q, txs)
    ensures HolderIn(p, q, a, n).Some? ==>
              var t := HolderIn(p, q, a, n).value; t in txs && t.from == a && t.nonce == n
    ensures forall t :: t in txs && t.from == a && t.nonce == n ==> HolderIn(p, q, a, n) == Some(t)
  {
    HolderMatches(p, q, txs, a, n);
    forall t | t in txs && t.from == a && t.nonce == n
      ensures HolderIn(p, q, a, n) == Some(t)
    {
      WhereIs(p, q, txs, t);
    }
  }

  function HolderSet(h: Option<Tx>): set<Tx> { if h.Some? then {h.value} else {} }

  /** Who holds a nonce after some transactions left: the same one, if it stayed. */
  lemma HolderAfter(p: Shelf, q: Shelf, txs: set<Tx>, p': Shelf, q': Shelf, txs': set<Tx>, a: Address, n: nat)
    requires Settled(p, q, txs) && Settled(p', q', txs') && txs' <= txs
    ensures var h := HolderIn(p, q, a, n); HolderIn(p', q', a, n) == if h.Some? && h.value in txs' then h else None
  {
    HolderPooled(p, q, txs, a, n);
    HolderPooled(p', q', txs', a, n);
  }

  /** Replacing a pending transaction by a new one of the same nonce. */
  lemma SwapPending(p: Shelf, q: Shelf, txs: set<Tx>, tx: Tx)
    requires Settled(p, q, txs) && tx.nonce in At(p, tx.from) && tx !in txs
    ensures var a := tx.from; var held := p[a].items[tx.nonce];
            && held != tx && Settled(Shelve(p, a, p[a].Add(tx)), q, txs - {held} + {tx})
            && p[a].Add(tx).items.Keys == p[a].items.Keys
  {
    var a := tx.from;
    HolderMatches(p, q, txs, a, tx.nonce);
    NothingInFlight(p, q, txs, 0, a);
    AddValid(p[a], tx);
    LandInPending(p, q, txs, map[], tx, p[a].Add(tx));
    NothingInFlight(Shelve(p, a, p[a].Add(tx)), q, txs - HeldAt(At(p, a), tx.nonce) + {tx}, a, 0);
  }

  /** Cutting a queued list down drops exactly what it loses. */
  lemma ShrinkQueued(p: Shelf, q: Shelf, txs: set<Tx>, a: Address, l: List)
    requires Settled(p, q, txs) && a in q && PartOf(l, q[a])
    ensures Settled(p, Shelve(q, a, l), txs - Txs(q[a].items - l.items.Keys))
  {
    hide Agree;
    var flight := q[a].items - l.items.Keys;
    NothingInFlight(p, q, txs, 0, a);
    TakeFromQueue(p, q, txs, a, l);
    DropFlight(p, Shelve(q, a, l), txs, a, flight, flight);
    assert flight - flight.Keys == map[];
    NothingInFlight(p, Shelve(q, a, l), txs - Txs(flight), a, 0);
  }

  lemma ShrinkPending(p: Shelf, q: Shelf, txs: set<Tx>, a: Address, l: List)
    requires Settled(p, q, txs) && a in p && PartOf(l, p[a])
    ensures Settled(Shelve(p, a, l), q, txs - Txs(p[a].items - l.items.Keys))
  {
    hide Agree;
    var flight := p[a].items - l.items.Keys;
    NothingInFlight(p, q, txs, 0, a);
    TakeFromPending(p, q, txs, a, l);
    DropFlight(Shelve(p, a, l), q, txs, a, flight, flight);
    assert flight - flight.Keys == map[];
    NothingInFlight(Shelve(p, a, l), q, txs - Txs(flight), a, 0);
  }

  /** Forward, Filter, Cap and Ready leave a part of the list. */
  lemma OperationsLeaveParts(l: List, k: nat, costLimit: int, gasLimit: nat)
    requires l.Valid()
    ensures PartOf(l.Forward(k), l) && PartOf(l.Filter(costLimit, gasLimit), l) && PartOf(l.Cap(k), l)
            && PartOf(l.Ready(k), l)
  {
    FilterValid(l, costLimit, gasLimit);
    CapWithin(l.items, k);
    PartValid(l, Lowest(l.items, k));
    PartValid(l, AtLeast(l.items, k));
    PartValid(l, l.items - Readies(l.items, k).Keys);
  }

  lemma ListsFit(p: Shelf, q: Shelf, txs: set<Tx>, a: Address)
    requires Settled(p, q, txs)
    ensures a in p ==> p[a].strict && p[a].Valid()
    ensures a in q ==> !q[a].strict && q[a].Valid()
  {
  }

  lemma ApartAt(p: Shelf, q: Shelf, txs: set<Tx>, a: Address)
    requires Settled(p, q, txs)
    ensures forall n :: n in At(p, a) ==> n !in At(q, a)
  {
  }

  /** Filtering a pending list: the dropped leave the lookup, the rest of what it loses is in flight. */
  lemma FilterPendingList(p: Shelf, q: Shelf, txs: set<Tx>, a: Address, costLimit: int, gasLimit: nat)
    requires Settled(p, q, txs) && a in p
    ensures var l := p[a].Filter(costLimit, gasLimit);
            var gone := Dropped(p[a].items, costLimit, gasLimit);
            && Agree(Shelve(p, a, l), q, txs - Txs(gone), a, p[a].items - gone.Keys - l.items.Keys)
            && l.items == Payable(true, p[a].items, costLimit, gasLimit)
            && Within(p[a].items - gone.Keys - l.items.Keys, p[a].items)
  {
    hide Agree, Dropped, Payable, List.Filter;
    var l := p[a].Filter(costLimit, gasLimit);
    var gone := Dropped(p[a].items, costLimit, gasLimit);
    NothingInFlight(p, q, txs, 0, a);
    ListsFit(p, q, txs, a);
    OperationsLeaveParts(p[a], 0, costLimit, gasLimit);
    FilterParts(p[a], costLimit, gasLimit);
    TakeFromPending(p, q, txs, a, l);
    DropFlight(Shelve(p, a, l), q, txs, a, p[a].items - l.items.Keys, gone);
  }

  lemma FilterParts(l: List, costLimit: int, gasLimit: nat)
    requires l.Valid()
    ensures var m := l.items; var r := l.Filter(costLimit, gasLimit).items; var gone := Dropped(m, costLimit, gasLimit);
            && r == Payable(l.strict, m, costLimit, gasLimit) && Within(gone, m - r.Keys)
            && m - r.Keys - gone.Keys == m - gone.Keys - r.Keys && Within(m - gone.Keys - r.Keys, m)
  {
    FilterIgnoresCaps(l, costLimit, gasLimit);
    PayableStays(l.strict, l.items, costLimit, gasLimit);
    LeavesWithin(l.items, Payable(l.strict, l.items, costLimit, gasLimit).Keys,
                 Dropped(l.items, costLimit, gasLimit).Keys);
  }

  lemma LeavesWithin(m: Items, r: set<nat>, gone: set<nat>)
    ensures m - r - gone == m - gone - r && Within(m - gone - r, m)
  {
  }

  /** Taking a whole pending list out. */
  lemma TakeAllPending(p: Shelf, q: Shelf, txs: set<Tx>, a: Address)
    requires Settled(p, q, txs) && a in p
    ensures Agree(Shelve(p, a, p[a].Cap(0)), q, txs, a, p[a].items) && p[a].Cap(0).items == map[]
  {
    hide Agree, PartOf, Shelve, List.Valid;
    NothingInFlight(p, q, txs, 0, a);
    ListsFit(p, q, txs, a);
    OperationsLeaveParts(p[a], 0, 0, 0);
    var none := p[a].Cap(0).items;
    assert none.Keys == {} && p[a].items - {} == p[a].items;
    TakeFromPending(p, q, txs, a, p[a].Cap(0));
  }

  // ----- counting -----

  /** The number of transactions on a shelf. */
  ghost function Total(m: Shelf): nat
    decreases |m|
  {
    if m == map[] then 0
    else
      var a :| a in m;
      assert (m - {a}).Keys == m.Keys - {a};
      |m[a].items| + Total(m - {a})
  }

  lemma TotalPicks(m: Shelf) returns (b: Address)
    requires m != map[]
    ensures b in m && Total(m) == |m[b].items| + Total(m - {b})
  {
    b :| b in m && Total(m) == |m[b].items| + Total(m - {b});
  }

  lemma {:induction false} TotalWithout(m: Shelf, a: Address)
    requires a in m
    ensures Total(m) == |m[a].items| + Total(m - {a})
    decreases |m|
  {
    hide Total;
    var b := TotalPicks(m);
    if b != a {
      var ma, mb := m - {a}, m - {b};
      assert ma.Keys == m.Keys - {a} && mb.Keys == m.Keys - {b};
      TotalWithout(mb, a);
      TotalWithout(ma, b);
      assert mb - {a} == ma - {b};
    }
  }

  lemma TotalShelve(m: Shelf, a: Address, l: List)
    requires a in m
    ensures Total(Shelve(m, a, l)) == Total(m) - |m[a].items| + |l.items|
  {
    TotalWithout(m, a);
    if l.items != map[] {
      TotalWithout(m[a := l], a);
      assert m[a := l] - {a} == m - {a};
    }
  }

  /** The transactions on a shelf. */
  ghost function Stock(m: Shelf): set<Tx> { set a, n | a in m && n in m[a].items :: m[a].items[n] }

  lemma StockWithout(m: Shelf, strict: bool, a: Address)
    requires Tidy(m, strict) && a in m
    ensures Stock(m) == Txs(m[a].items) + Stock(m - {a}) && Txs(m[a].items) !! Stock(m - {a}) && Tidy(m - {a}, strict)
  {
    forall tx
      ensures tx in Stock(m) <==> tx in Txs(m[a].items) || tx in Stock(m - {a})
    {
      if tx in Stock(m) {
        var b, n :| b in m && n in m[b].items && m[b].items[n] == tx;
        assert b == a || b in m - {a};
      }
      if tx in Stock(m - {a}) {
        var b, n :| b in m - {a} && n in m[b].items && m[b].items[n] == tx;
      }
    }
  }

  lemma {:induction false} StockCount(m: Shelf, strict: bool)
    requires Tidy(m, strict)
    ensures |Stock(m)| == Total(m)
    decreases |m|
  {
    hide Total, Stock, Tidy;
    if m == map[] {
      NoStock(m);
    } else {
      var a := TotalPicks(m);
      assert (m - {a}).Keys == m.Keys - {a};
      StockWithout(m, strict, a);
      KeyedAt(m, strict, a);
      TxsCount(m[a].items);
      StockCount(m - {a}, strict);
    }
  }

  lemma NoStock(m: Shelf)
    requires m == map[]
    ensures Stock(m) == {} && Total(m) == 0
  {
  }

  lemma KeyedAt(m: Shelf, strict: bool, a: Address)
    requires Tidy(m, strict) && a in m
    ensures Keyed(m[a].items)
  {
  }

  /** The two shelves together hold as many transactions as the lookup. */
  lemma TotalIsAll(p: Shelf, q: Shelf, txs: set<Tx>)
    requires Settled(p, q, txs)
    ensures Total(p) + Total(q) == |txs|
  {
    StockCount(p, true);
    StockCount(q, false);
    StockApart(p, q, txs);
    assert |Stock(p) + Stock(q)| == |Stock(p)| + |Stock(q)|;
  }

  lemma StockApart(p: Shelf, q: Shelf, txs: set<Tx>)
    requires Settled(p, q, txs)
    ensures txs == Stock(p) + Stock(q) && Stock(p) !! Stock(q)
  {
    forall tx
      ensures tx in Stock(p) <==> Holds(At(p, tx.from), tx)
      ensures tx in Stock(q) <==> Holds(At(q, tx.from), tx)
    {
    }
    forall tx
      ensures tx in txs <==> tx in Stock(p) || tx in Stock(q)
    {
      assert tx in txs <==> Somewhere(p, q, 0, map[], tx);
    }
  }

  method CountTxs(m: Shelf) returns (count: nat)
    ensures count == Total(m)
  {
    var left := m;
    count := 0;
    while left != map[]
      invariant count + Total(left) == Total(m)
      decreases |left|
    {
      var a :| a in left;
      TotalWithout(left, a);
      assert (left - {a}).Keys == left.Keys - {a};
      count := count + |left[a].items|;
      left := left - {a};
    }
  }

  lemma NotEmpty(p: Shelf, q: Shelf, txs: set<Tx>, a: Address)
    requires Settled(p, q, txs)
    ensures a in p ==> p[a].items != map[]
    ensures a in q ==> q[a].items != map[]
  {
  }

  ghost predicate Distinct(s: seq<Address>) { forall i, j :: 0 <= i < j < |s| ==> s[i] != s[j] }

  lemma ListedOnce(s: seq<Address>, all: set<Address>)
    requires multiset(s) == multiset(all)
    ensures Distinct(s) && forall a :: a in s <==> a in all
  {
    forall a
      ensures a in s <==> a in all
    {
      assert a in s <==> a in multiset(s);
    }
    forall i, j | 0 <= i < j < |s|
      ensures s[i] != s[j]
    {
      assert s == s[..j] + s[j..];
      assert s[i] in multiset(s[..j]) && s[j] in multiset(s[j..]);
      assert multiset(s)[s[i]] == multiset(s[..j])[s[i]] + multiset(s[j..])[s[i]];
    }
  }

  lemma DistinctNext(s: seq<Address>, i: nat)
    requires Distinct(s) && i < |s|
    ensures s[i] !in s[..i] && forall x :: x in s[..i + 1] <==> x in s[..i] || x == s[i]
  {
    assert s[..i + 1] == s[..i] + [s[i]];
  }

  lemma OneLess(m: Items, n: nat)
    requires n in m
    ensures |m - {n}| == |m| - 1
  {
    assert (m - {n}).Keys == m.Keys - {n};
  }

  /** Shelves without empty lists that agree on all accounts but one list the same accounts but that one. */
  lemma SameKeysBut(p: Shelf, q: Shelf, q': Shelf, txs: set<Tx>, a: Address)
    requires Settled(p, q', txs) && forall x :: x != a ==> At(q, x) == At(q', x)
    ensures q'.Keys <= q.Keys + {a} && (At(q', a) == map[] ==> a !in q')
  {
    forall x | x in q' && x != a
      ensures x in q
    {
      assert q'[x].items != map[] && At(q, x) == At(q', x);
    }
  }
}
