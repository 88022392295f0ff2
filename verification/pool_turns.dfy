/** What a promotion, a demotion and a truncation do to one account, and when an executable transaction is left in
    the queue. `m` is the pending list, `q` the queue, `s` the state nonce and `pn` the virtual nonce. */
module PoolTurns {
  import opened Transactions
  import opened TxLists
  import opened PoolNonces
  import opened PoolStructure

  ghost predicate Disjoint(m: Items, q: Items) { forall n :: n in m ==> n !in q }

  lemma DisjointAt(p: Shelf, q: Shelf, txs: set<Tx>, a: Address)
    requires Settled(p, q, txs)
    ensures Disjoint(At(p, a), At(q, a))
  {
    ApartAt(p, q, txs, a);
  }

  /** What of a queue is neither too old nor too dear. */
  function UsableOf(q: Items, s: nat, balance: int, maxGas: nat): Items {
    Payable(false, AtLeast(q, s), balance, maxGas)
  }

  /** What a queue may keep: all of it if the account is local, else its lowest nonces. */
  function Allowed(q: Items, local: bool, limit: nat): Items { if local then q else Lowest(q, limit) }

  /** The run that is ready at the virtual nonce moves from the queue to pending, and the virtual nonce past it. */
  ghost predicate Moved(m: Items, m': Items, q: Items, q': Items, pn: nat, pn': nat) {
    var ready := Readies(q, pn);
    m' == m + ready && q' == q - ready.Keys && pn' == if ready == map[] then pn else RunEnd(q, pn)
  }

  /** One promotion: the usable run that is ready moves, and the queue keeps what may wait. */
  ghost predicate Promoted(m: Items, m': Items, q: Items, q': Items, s: nat, pn: nat, pn': nat, balance: int,
                           maxGas: nat, local: bool, limit: nat) {
    var usable := UsableOf(q, s, balance, maxGas);
    var waiting := usable - Readies(usable, pn).Keys;
    Moved(m, m', usable, waiting, pn, pn') && q' == Allowed(waiting, local, limit)
  }

  /** One demotion: pending keeps what is recent and payable up to the first that is not, the payable rest is
      queued, and a list that does not start at the state nonce is queued as a whole. */
  ghost predicate Demoted(m: Items, m': Items, q: Items, q': Items, s: nat, balance: int, maxGas: nat) {
    var recent := AtLeast(m, s);
    var kept := Payable(true, recent, balance, maxGas);
    var queued := q + Invalidated(recent, balance, maxGas);
    if kept == map[] || s in kept then m' == kept && q' == queued else m' == map[] && q' == queued + kept
  }

  /** The first nonce from the state on that is not pending is queued: an executable transaction is left behind. */
  ghost predicate Left(m: Items, q: Items, s: nat) { RunEnd(m, s) in q }

  /** Promoting and demoting the account will leave such a transaction: it is usable, the virtual nonce does not point
      at it, and nothing pending before it is dropped. */
  ghost predicate Stuck(m: Items, q: Items, s: nat, pn: nat, balance: int, maxGas: nat) {
    && RunEnd(m, s) in UsableOf(q, s, balance, maxGas) && RunEnd(m, s) != pn
    && Dropped(AtLeast(m, s), balance, maxGas) == map[]
  }

  lemma UsableFresh(q: Items, s: nat, balance: int, maxGas: nat)
    ensures var u := UsableOf(q, s, balance, maxGas);
            Fresh(u, s) && Paid(u, s, balance, maxGas) && Within(u, q)
  {
    PayableStays(false, AtLeast(q, s), balance, maxGas);
  }

  /** Keeping the lowest nonces of a queue keeps the one that is next to pending. */
  lemma LeftAllowed(m: Items, q: Items, s: nat, local: bool, limit: nat)
    requires Disjoint(m, q) && Fresh(q, s) && limit >= 1
    ensures Left(m, Allowed(q, local, limit), s) <==> Left(m, q, s)
  {
    LowestAreBelow(q, limit);
    var e, low := RunEnd(m, s), Lowest(q, limit);
    if e in q {
      assert |q.Keys| > 0 && |low| > 0;
      var n :| n in low.Keys;
      assert e in low || n < e;
    }
  }

  /** What is ready while the virtual nonce is not past the state: the run at the state nonce, if the virtual nonce
      points at it. */
  lemma ReadyAtState(u: Items, s: nat, pn: nat)
    requires Fresh(u, s) && pn <= s
    ensures if pn == s && s in u then Range(Readies(u, pn), s, RunEnd(u, s)) else Readies(u, pn) == map[]
  {
    if u != map[] { assert s <= Least(u.Keys); }
  }

  lemma RecentRun(m: Items, s: nat)
    requires Solid(m, s)
    ensures Range(AtLeast(m, s), s, RunEnd(m, s))
  {
    var e := RunEnd(m, s);
    assert forall n :: n in m && s <= e <= n ==> e in m;
  }

  lemma RangeRun(m: Items, s: nat, e: nat)
    requires Range(m, s, e)
    ensures RunEnd(m, s) == if s <= e then e else s
    ensures e <= s ==> m == map[]
  {
    RunEndUnique(m, s, if s <= e then e else s);
  }

  /** The run that joins a gap-free pending range, and where it ends. */
  lemma ReadyAtEnd(m: Items, u: Items, s: nat, pn: nat)
    requires Range(m, s, pn) && Disjoint(m, u) && Fresh(u, s) && s <= pn
    ensures if pn in u then Range(m + Readies(u, pn), s, RunEnd(u, pn)) else Readies(u, pn) == map[]
  {
    if u != map[] { assert pn <= Least(u.Keys); }
  }

  /** A promotion of an account at rest leaves something executable exactly if its virtual nonce is behind the state
      and a usable transaction waits at the state nonce. */
  lemma RestLeft(m: Items, m': Items, q: Items, q': Items, s: nat, pn: nat, pn': nat, balance: int, maxGas: nat,
                 local: bool, limit: nat)
    requires Range(m, s, pn) && Disjoint(m, q) && limit >= 1
    requires Promoted(m, m', q, q', s, pn, pn', balance, maxGas, local, limit)
    ensures Left(m', q', s) <==> pn < s && s in UsableOf(q, s, balance, maxGas)
  {
    hide UsableOf, Readies, Allowed;
    var u := UsableOf(q, s, balance, maxGas);
    var r := Readies(u, pn);
    UsableFresh(q, s, balance, maxGas);
    RangeRun(m, s, pn);
    if s <= pn { ReadyAtEnd(m, u, s, pn); } else { ReadyAtState(u, s, pn); }
    if s <= pn && pn in u { RangeRun(m', s, RunEnd(u, pn)); } else { assert m' == m && u - r.Keys == u; }
    LeftAllowed(m', u - r.Keys, s, local, limit);
  }

  /** A usable transaction at the virtual nonce of an account at rest that is not behind becomes pending. */
  lemma PromotedNext(m: Items, m': Items, q: Items, q': Items, s: nat, pn: nat, pn': nat, balance: int, maxGas: nat,
                     local: bool, limit: nat)
    requires Range(m, s, pn) && s <= pn && Disjoint(m, q) && pn in q && !Unpayable(q[pn], balance, maxGas)
    requires Promoted(m, m', q, q', s, pn, pn', balance, maxGas, local, limit)
    ensures pn in m' && m'[pn] == q[pn]
  {
    hide Allowed, RunEnd;
    var u := UsableOf(q, s, balance, maxGas);
    UsableFresh(q, s, balance, maxGas);
    assert pn in AtLeast(q, s) && pn !in Dropped(AtLeast(q, s), balance, maxGas);
    assert pn in u && u[pn] == q[pn];
    ReadyAtEnd(m, u, s, pn);
  }

  lemma PromotedInSteps(m: Items, m': Items, q: Items, waiting: Items, q': Items, s: nat, pn: nat, pn': nat,
                        balance: int, maxGas: nat, local: bool, limit: nat)
    requires Moved(m, m', UsableOf(q, s, balance, maxGas), waiting, pn, pn') && q' == Allowed(waiting, local, limit)
    ensures Promoted(m, m', q, q', s, pn, pn', balance, maxGas, local, limit)
  {
  }

  lemma CapKeeps(q: Items, limit: nat, s: nat, pn: nat)
    ensures Fresh(q, s) ==> Fresh(Lowest(q, limit), s)
    ensures (pn !in q ==> pn !in Lowest(q, limit)) && (q == map[] ==> Lowest(q, limit) == map[])
    ensures |Lowest(q, limit)| <= limit
  {
    LowestAreBelow(q, limit);
  }

  lemma PromotedNone(m: Items, s: nat, pn: nat, balance: int, maxGas: nat, local: bool, limit: nat)
    ensures Promoted(m, m, map[], map[], s, pn, pn, balance, maxGas, local, limit) && Fresh(map[], s)
  {
    NoneUsable(s, balance, maxGas);
    assert m + map[] == m;
  }

  lemma PromotedNonce(m: Items, m': Items, q: Items, q': Items, s: nat, pn: nat, pn': nat, balance: int, maxGas: nat,
                      local: bool, limit: nat)
    requires Promoted(m, m', q, q', s, pn, pn', balance, maxGas, local, limit)
    ensures pn <= pn'
  {
  }

  // ----- demotion -----

  /** Demoting a list that has no gap from the state nonce on never finds a gap to close. */
  lemma DemotedPlain(m: Items, m': Items, q: Items, q': Items, s: nat, balance: int, maxGas: nat)
    requires Demoted(m, m', q, q', s, balance, maxGas) && Solid(m, s)
    ensures m' == Payable(true, AtLeast(m, s), balance, maxGas)
    ensures q' == q + Invalidated(AtLeast(m, s), balance, maxGas)
  {
    hide Invalidated;
    RecentRun(m, s);
    var e := PayableRange(AtLeast(m, s), s, RunEnd(m, s), balance, maxGas);
    var kept := Payable(true, AtLeast(m, s), balance, maxGas);
    assert e == s ==> kept.Keys == {};
  }

  lemma DemotedNone(q: Items, s: nat, balance: int, maxGas: nat)
    ensures Demoted(map[], map[], q, q, s, balance, maxGas)
  {
    EmptyPayable(balance, maxGas);
    assert AtLeast(map[], s) == map[] && q + map[] == q;
  }

  /** Demoting a following account leaves it steady. */
  lemma DemotedSteadily(m: Items, m': Items, q: Items, q': Items, s: nat, pn: nat, balance: int, maxGas: nat)
    requires Demoted(m, m', q, q', s, balance, maxGas) && Solid(m, s) && Following(m, s, pn, balance, maxGas)
             && Fresh(q, s)
    ensures Fresh(m', s) && Solid(m', s) && Fresh(q', s) && (pn <= s || Exact(m', s, pn))
  {
    hide Payable, Invalidated, Fresh, Solid, Exact, Demoted, Within;
    DemotedPlain(m, m', q, q', s, balance, maxGas);
    DemotedSteady(m, s, pn, balance, maxGas);
    ForwardedFresh(m, s);
    InvalidatedPart(AtLeast(m, s), balance, maxGas);
    PartFresh(AtLeast(m, s), Invalidated(AtLeast(m, s), balance, maxGas), s);
    MergeFresh(q, Invalidated(AtLeast(m, s), balance, maxGas), s);
  }

  lemma NothingDropped(m: Items, balance: int, maxGas: nat)
    requires Dropped(m, balance, maxGas) == map[]
    ensures Payable(true, m, balance, maxGas) == m && Invalidated(m, balance, maxGas) == map[]
  {
  }

  /** The pending list now ends where the first transaction was dropped, and that one is not queued. */
  lemma DroppedLeavesNone(m: Items, q: Items, s: nat, balance: int, maxGas: nat)
    requires Solid(m, s) && Disjoint(m, q) && Dropped(AtLeast(m, s), balance, maxGas) != map[]
    ensures !Left(Payable(true, AtLeast(m, s), balance, maxGas), q + Invalidated(AtLeast(m, s), balance, maxGas), s)
  {
    RecentRun(m, s);
    var recent := AtLeast(m, s);
    var e := PayableRange(recent, s, RunEnd(m, s), balance, maxGas);
    RangeRun(Payable(true, recent, balance, maxGas), s, e);
    assert e in Dropped(recent, balance, maxGas);
  }

  /** Promotion and demotion after a new head leave something executable queued exactly if it was stuck. */
  lemma StuckLeft(m: Items, m1: Items, m2: Items, q: Items, q1: Items, q2: Items, s: nat, pn: nat, pn1: nat,
                  balance: int, maxGas: nat, local: bool, limit: nat)
    requires Solid(m, s) && pn <= s && Disjoint(m, q) && limit >= 1
    requires Promoted(m, m1, q, q1, s, pn, pn1, balance, maxGas, local, limit)
    requires Demoted(m1, m2, q1, q2, s, balance, maxGas) && Solid(m1, s)
    ensures Left(m2, q2, s) <==> Stuck(m, q, s, pn, balance, maxGas)
  {
    hide UsableOf, Readies, Allowed, Payable, Dropped, Invalidated, AtLeast, Demoted, Solid, Fresh, Paid, Within;
    var u := UsableOf(q, s, balance, maxGas);
    UsableFresh(q, s, balance, maxGas);
    ReadyAtState(u, s, pn);
    DisjointPart(m, q, u);
    DemotedPlain(m1, m2, q1, q2, s, balance, maxGas);
    if pn == s && s in u {
      AllReady(m, u, s, balance, maxGas);
      ReadyLeft(u, s, local, limit);
      assert q2 == q1;
    } else {
      assert m1 == m && u - Readies(u, pn).Keys == u;
      WaitingLeft(m, u, s, balance, maxGas, local, limit);
    }
  }

  lemma DisjointPart(m: Items, q: Items, u: Items)
    requires Disjoint(m, q) && Within(u, q)
    ensures Disjoint(m, u)
  {
  }

  /** A ready run leaves nothing executable behind. */
  lemma ReadyLeft(u: Items, s: nat, local: bool, limit: nat)
    requires Fresh(u, s) && limit >= 1 && s in u
    ensures !Left(Readies(u, s), Allowed(u - Readies(u, s).Keys, local, limit), s)
  {
    hide Readies, Allowed;
    ReadyAtState(u, s, s);
    RangeRun(Readies(u, s), s, RunEnd(u, s));
    LeftAllowed(Readies(u, s), u - Readies(u, s).Keys, s, local, limit);
  }

  /** Without a ready run, demotion leaves something executable if it drops nothing and a usable one is next. */
  lemma WaitingLeft(m: Items, u: Items, s: nat, balance: int, maxGas: nat, local: bool, limit: nat)
    requires Solid(m, s) && Disjoint(m, u) && Fresh(u, s) && limit >= 1
    ensures var recent := AtLeast(m, s);
            Left(Payable(true, recent, balance, maxGas),
                 Allowed(u, local, limit) + Invalidated(recent, balance, maxGas), s)
            <==> RunEnd(m, s) in u && Dropped(recent, balance, maxGas) == map[]
  {
    hide Allowed, Payable, Dropped, Invalidated, Solid, Fresh;
    var recent := AtLeast(m, s);
    AllowedPart(u, local, limit);
    if Dropped(recent, balance, maxGas) == map[] {
      NothingDropped(recent, balance, maxGas);
      RecentRun(m, s);
      RangeRun(recent, s, RunEnd(m, s));
      assert Allowed(u, local, limit) + map[] == Allowed(u, local, limit);
      LeftAllowed(recent, u, s, local, limit);
    } else {
      DroppedLeavesNone(m, Allowed(u, local, limit), s, balance, maxGas);
    }
  }

  /** If the new state has reached the virtual nonce, nothing is stuck. */
  lemma NotStuck(m: Items, m': Items, q: Items, s: nat, pn: nat, s': nat, balance: int, maxGas: nat)
    requires Range(m, s, pn) && s <= s' && pn <= s' && m'.Keys == m.Keys
    ensures !Stuck(m', q, s', s', balance, maxGas)
  {
    assert s' !in m'.Keys;
  }

  lemma AllowedPart(q: Items, local: bool, limit: nat)
    ensures Within(Allowed(q, local, limit), q)
  {
    LowestAreBelow(q, limit);
  }

  /** With nothing pending from the state nonce on, all that is pending afterwards was ready and can be paid for. */
  lemma AllReady(m: Items, u: Items, s: nat, balance: int, maxGas: nat)
    requires Solid(m, s) && Disjoint(m, u) && Fresh(u, s) && Paid(u, s, balance, maxGas) && s in u
    ensures var r := Readies(u, s); var recent := AtLeast(m + r, s);
            && recent == r && RunEnd(m, s) == s
            && Payable(true, recent, balance, maxGas) == r && Invalidated(recent, balance, maxGas) == map[]
  {
    var r := Readies(u, s);
    ReadyAtState(u, s, s);
    assert s !in m;
    assert AtLeast(m + r, s) == r;
    assert Dropped(r, balance, maxGas) == map[];
    NothingDropped(r, balance, maxGas);
  }

  // ----- what a reset run makes of an account -----

  /** The two lists of an account. */
  datatype Lists = Lists(pending: Items, queue: Items)

  /** One promotion, whatever the virtual nonce moves to. */
  ghost predicate Advanced(l: Lists, l': Lists, s: nat, pn: nat, balance: int, maxGas: nat, local: bool, limit: nat) {
    exists pn' :: Promoted(l.pending, l'.pending, l.queue, l'.queue, s, pn, pn', balance, maxGas, local, limit)
  }

  /** The usable run at the state nonce joins pending if the virtual nonce points there, the queue keeps what may wait,
      and then pending keeps what is recent and payable up to the first that is not, the payable rest being queued. */
  function Served(l: Lists, s: nat, onState: bool, balance: int, maxGas: nat, local: bool, limit: nat): Lists {
    var usable := UsableOf(l.queue, s, balance, maxGas);
    var ready := if onState then Readies(usable, s) else map[];
    var recent := AtLeast(l.pending + ready, s);
    var kept := Payable(true, recent, balance, maxGas);
    Lists(kept, Allowed(usable - ready.Keys, local, limit) + Invalidated(recent, balance, maxGas))
  }

  lemma ServedIs(m: Items, m1: Items, m2: Items, q: Items, q1: Items, q2: Items, s: nat, pn: nat, pn1: nat,
                 balance: int, maxGas: nat, local: bool, limit: nat)
    requires pn <= s && Promoted(m, m1, q, q1, s, pn, pn1, balance, maxGas, local, limit)
    requires Demoted(m1, m2, q1, q2, s, balance, maxGas) && Solid(m1, s)
    ensures Lists(m2, q2) == Served(Lists(m, q), s, pn == s, balance, maxGas, local, limit)
  {
    hide Readies, UsableOf, Allowed, Payable, Invalidated, AtLeast, Solid, Demoted, Fresh, Paid, Within;
    UsableFresh(q, s, balance, maxGas);
    if pn < s { ReadyAtState(UsableOf(q, s, balance, maxGas), s, pn); }
    DemotedPlain(m1, m2, q1, q2, s, balance, maxGas);
  }

  /** At least so many of the account wait in front of the nonce. */
  ghost predicate Crowded(q: Items, n: nat, limit: nat) { limit <= |Below(q, n)| }

  /** Why a transaction of the account is in neither list afterwards: too old, too dear, or beyond the limit of a queue
      that is not local. */
  ghost predicate Expelled(tx: Tx, after: Lists, s: nat, balance: int, maxGas: nat, local: bool, limit: nat) {
    || tx.nonce < s || tx.cost > balance || tx.gas > maxGas || (!local && Crowded(after.queue, tx.nonce, limit))
  }

  /** Nothing else leaves. */
  lemma ServedKeeps(l: Lists, s: nat, onState: bool, balance: int, maxGas: nat, local: bool, limit: nat, tx: Tx)
    requires Disjoint(l.pending, l.queue) && (Holds(l.pending, tx) || Holds(l.queue, tx))
    ensures var after := Served(l, s, onState, balance, maxGas, local, limit);
            || Holds(after.pending, tx) || Holds(after.queue, tx)
            || Expelled(tx, after, s, balance, maxGas, local, limit)
  {
    hide UsableOf, Readies, Allowed, Payable, Invalidated, Crowded, Fresh, Paid, Solid;
    if s <= tx.nonce && !Unpayable(tx, balance, maxGas) {
      var usable := UsableOf(l.queue, s, balance, maxGas);
      var ready := if onState then Readies(usable, s) else map[];
      var recent := AtLeast(l.pending + ready, s);
      ReadyWithin(l.queue, s, balance, maxGas);
      if Holds(l.queue, tx) { StaysUsable(l.queue, s, balance, maxGas, tx); }
      if Holds(l.queue, tx) && tx.nonce !in ready {
        RecentApart(l, usable, ready, s);
        WaitingKept(usable - ready.Keys, recent, balance, maxGas, local, limit, tx);
      } else {
        RecentKept(recent, Allowed(usable - ready.Keys, local, limit), balance, maxGas, tx);
      }
    }
  }

  lemma ReadyWithin(q: Items, s: nat, balance: int, maxGas: nat)
    ensures var u := UsableOf(q, s, balance, maxGas); Within(u, q) && Within(Readies(u, s), u)
  {
    UsableFresh(q, s, balance, maxGas);
  }

  lemma StaysUsable(q: Items, s: nat, balance: int, maxGas: nat, tx: Tx)
    requires Holds(q, tx) && s <= tx.nonce && !Unpayable(tx, balance, maxGas)
    ensures Holds(UsableOf(q, s, balance, maxGas), tx)
  {
    PayableStays(false, AtLeast(q, s), balance, maxGas);
  }

  lemma RecentApart(l: Lists, usable: Items, ready: Items, s: nat)
    requires Disjoint(l.pending, l.queue) && Within(usable, l.queue) && Within(ready, usable)
    ensures Disjoint(AtLeast(l.pending + ready, s), usable - ready.Keys)
  {
  }

  lemma RecentKept(recent: Items, q: Items, balance: int, maxGas: nat, tx: Tx)
    requires Holds(recent, tx) && !Unpayable(tx, balance, maxGas)
    ensures || Holds(Payable(true, recent, balance, maxGas), tx)
            || Holds(q + Invalidated(recent, balance, maxGas), tx)
  {
    PayableStays(true, recent, balance, maxGas);
  }

  lemma WaitingKept(waiting: Items, recent: Items, balance: int, maxGas: nat, local: bool, limit: nat, tx: Tx)
    requires Holds(waiting, tx) && Disjoint(recent, waiting)
    ensures var q := Allowed(waiting, local, limit) + Invalidated(recent, balance, maxGas);
            Holds(q, tx) || (!local && Crowded(q, tx.nonce, limit))
  {
    LowestAreBelow(waiting, limit);
    var low := Lowest(waiting, limit);
    var q := Allowed(waiting, local, limit) + Invalidated(recent, balance, maxGas);
    if !local && tx.nonce !in low {
      assert low.Keys <= Below(q, tx.nonce).Keys;
      NoMore(low.Keys, Below(q, tx.nonce).Keys);
      assert |low| == |low.Keys| && |Below(q, tx.nonce)| == |Below(q, tx.nonce).Keys|;
    }
  }

  // ----- truncation -----

  /** Both lists kept their lowest nonces, and the virtual nonce stepped back to the first that left pending. */
  ghost predicate Trimmed(m: Items, m': Items, q: Items, q': Items, pn: nat, pn': nat) {
    LowPart(m', m) && LowPart(q', q) && Shed(m, m', pn, pn')
  }

  lemma TrimNothing(m: Items, q: Items, pn: nat)
    ensures Trimmed(m, m, q, q, pn, pn)
  {
  }

  /** Dropping the highest pending nonce, with the virtual nonce stepping back to it, is a trim. */
  lemma TrimTop(m: Items, q: Items, pn: nat)
    requires m != map[]
    ensures var g := Greatest(m.Keys); Trimmed(m, m - {g}, q, q, pn, Min(pn, g))
  {
  }

  lemma TrimQueue(m: Items, q: Items, q': Items, pn: nat)
    requires LowPart(q', q)
    ensures Trimmed(m, m, q, q', pn, pn)
  {
  }

  lemma TrimmedFresh(m: Items, m': Items, q: Items, q': Items, s: nat, pn: nat, pn': nat)
    requires Trimmed(m, m', q, q', pn, pn') && Fresh(q, s)
    ensures Fresh(q', s)
  {
  }

  lemma TrimChain(m: Items, m1: Items, m2: Items, q: Items, q1: Items, q2: Items, pn: nat, pn1: nat, pn2: nat)
    requires Trimmed(m, m1, q, q1, pn, pn1) && Trimmed(m1, m2, q1, q2, pn1, pn2)
    ensures Trimmed(m, m2, q, q2, pn, pn2)
  {
    LowPartChain(m2, m1, m);
    LowPartChain(q2, q1, q);
    ShedChain(m, m1, m2, pn, pn1, pn2);
  }

  /** Truncation keeps an account at rest. */
  lemma TrimmedRests(m: Items, m': Items, q: Items, q': Items, s: nat, pn: nat, pn': nat)
    requires Trimmed(m, m', q, q', pn, pn') && Range(m, s, pn) && Fresh(q, s)
    ensures Range(m', s, pn') && Fresh(q', s)
  {
    forall n: nat
      ensures n in m' <==> s <= n < pn'
    {
      assert n in m' ==> n in m;
      assert s <= n < pn' ==> n in m;
    }
  }

  /** Truncation keeps an account steady: gap-free from the state nonce, and exact once the virtual nonce is past it. */
  lemma TrimmedSteady(m: Items, m': Items, q: Items, q': Items, s: nat, pn: nat, pn': nat)
    requires Trimmed(m, m', q, q', pn, pn') && Fresh(m, s) && Solid(m, s) && Fresh(q, s)
    ensures Fresh(m', s) && Solid(m', s) && Fresh(q', s)
    ensures pn <= s || Exact(m, s, pn) ==> pn' <= s || Exact(m', s, pn')
  {
    AtRest(m, s, pn);
    AtRest(m', s, pn');
    if Exact(m, s, pn) { TrimmedRests(m, m', q, q', s, pn, pn'); }
    forall n, k: nat | n in m' && s <= k <= n
      ensures k in m'
    {
      assert k in m;
    }
  }

  lemma TrimmedAhead(m: Items, m': Items, q: Items, q': Items, s: nat, pn: nat, pn': nat)
    requires Trimmed(m, m', q, q', pn, pn') && Fresh(m, s) && s <= pn
    ensures Fresh(m', s) && s <= pn'
  {
  }

  /** Truncation makes nothing executable that was not, and brings nothing to the virtual nonce. */
  lemma TrimmedLeft(m: Items, m': Items, q: Items, q': Items, s: nat, pn: nat, pn': nat)
    requires Trimmed(m, m', q, q', pn, pn') && Disjoint(m, q)
    ensures Left(m', q', s) ==> Left(m, q, s)
    ensures (pn !in q ==> pn' !in q') && pn' <= pn
  {
    if Left(m', q', s) { RunEndUnique(m, s, RunEnd(m', s)); }
  }
}
