/** The nonces an account may have pending while the pool follows the chain. `s` is the account's nonce in the
    state and `pn` its virtual nonce in the pool. */
module PoolNonces {
  import opened Transactions
  import opened TxLists

  /** From the state nonce on, the pending nonces have no gap. */
  ghost predicate Solid(m: Items, s: nat) { forall n, k: nat :: n in m && s <= k <= n ==> k in m }

  /** From the state nonce on, pending are exactly the nonces below the virtual nonce. */
  ghost predicate Exact(m: Items, s: nat, pn: nat) { forall n: nat :: s <= n ==> (n in m <==> n < pn) }

  /** Nothing older than the state is pending. */
  ghost predicate Fresh(m: Items, s: nat) { forall n :: n in m ==> s <= n }

  ghost predicate Paid(m: Items, s: nat, balance: int, maxGas: nat) {
    forall n :: n in m && s <= n ==> !Unpayable(m[n], balance, maxGas)
  }

  /** While a reset is under way: the virtual nonce has not moved past the state, or it is exact and everything
      it covers can be paid for. */
  ghost predicate Following(m: Items, s: nat, pn: nat, balance: int, maxGas: nat) {
    pn <= s || (Exact(m, s, pn) && Paid(m, s, balance, maxGas))
  }

  /** At rest: pending is exactly the gap-free range from the state nonce to the virtual nonce. */
  lemma AtRest(m: Items, s: nat, pn: nat)
    ensures Range(m, s, pn) <==> Fresh(m, s) && Exact(m, s, pn)
  {
  }

  /** A state that only moves forward leaves no gap above it. */
  lemma AdvanceKeepsSolid(m: Items, s: nat, pn: nat, s': nat)
    requires Range(m, s, pn) && s <= s'
    ensures Solid(m, s')
  {
  }

  /** If queued transactions are ready at all, they start at the virtual nonce, which is then exact. */
  lemma ReadyStartsAtNonce(m: Items, q: Items, s: nat, pn: nat)
    requires (forall n :: n in m ==> n !in q) && Fresh(q, s) && Solid(m, s) && (pn <= s || Exact(m, s, pn))
    requires Readies(q, pn) != map[]
    ensures s <= pn && pn in q && Least(q.Keys) == pn && Exact(m, s, pn)
    ensures Range(Readies(q, pn), pn, RunEnd(q, pn)) && pn < RunEnd(q, pn)
  {
    var lo := Least(q.Keys);
    assert lo in q && lo <= pn;
    assert lo < pn ==> lo in m;
    assert forall n: nat :: n in m && s <= n ==> s in m;
  }

  /** Without a ready run nothing is queued at the virtual nonce, and taking none changes nothing. */
  lemma ReadiesStop(m: Items, q: Items, pn: nat)
    ensures Readies(q, pn) == map[] ==> pn !in q && m + Readies(q, pn) == m && q - Readies(q, pn).Keys == q
    ensures RunEnd(q, pn) !in q && (q == map[] ==> Readies(q, pn) == map[])
  {
    if q != map[] && Least(q.Keys) <= pn { assert Least(q.Keys) in Readies(q, pn); }
  }

  /** Nothing came into pending, and the virtual nonce stayed or stepped back to the lowest nonce that left. */
  ghost predicate Shed(m: Items, m': Items, pn: nat, pn': nat) {
    && m'.Keys <= m.Keys && pn' <= pn && (forall n :: n in m && n !in m' ==> pn' <= n)
    && (pn' == pn || (pn' in m && pn' !in m'))
  }

  lemma ShedChain(m: Items, m1: Items, m2: Items, pn: nat, pn1: nat, pn2: nat)
    requires Shed(m, m1, pn, pn1) && Shed(m1, m2, pn1, pn2)
    ensures Shed(m, m2, pn, pn2)
  {
    assert forall n :: n in m2 ==> n in m2.Keys;
    assert forall n :: n in m1 ==> n in m1.Keys;
  }

  lemma ShedNone(m: Items, m': Items, pn: nat)
    requires m.Keys == m'.Keys
    ensures Shed(m, m', pn, pn)
  {
    assert forall n :: n in m <==> n in m';
  }

  lemma ShedCut(m: Items, s: nat, pn: nat, n: nat)
    requires n in m
    ensures Shed(m, Below(m, n), pn, Min(pn, n))
    ensures Fresh(m, s) && s <= pn ==> Fresh(Below(m, n), s) && s <= Min(pn, n)
  {
  }

  /** A nonce below s left pending. */
  ghost predicate LostBelow(m: Items, m': Items, s: nat) { exists n :: n in m && n !in m' && n < s }

  lemma NoneLost(m: Items, m': Items, s: nat)
    requires Fresh(m, s)
    ensures !LostBelow(m, m', s)
  {
  }

  /** Starting from a virtual nonce on the state, it is behind exactly if a nonce below the state left pending. */
  lemma ShedBehind(m: Items, m': Items, s: nat, pn: nat)
    requires Shed(m, m', s, pn)
    ensures pn < s <==> LostBelow(m, m', s)
  {
  }

  /** No nonce left a list, none came into pending, and the virtual nonce did not move. */
  ghost predicate CalmAt(m: Items, m': Items, q: Items, q': Items, pn: nat, pn': nat) {
    m'.Keys == m.Keys && q.Keys <= q'.Keys && pn' == pn
  }

  lemma CalmKeys(m: Items, m': Items, q: Items, q': Items, pn: nat, pn': nat)
    requires CalmAt(m, m', q, q', pn, pn')
    ensures m'.Keys == m.Keys && q.Keys <= q'.Keys && pn' == pn
  {
  }

  lemma CalmChain(m: Items, m1: Items, m2: Items, q: Items, q1: Items, q2: Items, pn: nat, pn1: nat, pn2: nat)
    requires CalmAt(m, m1, q, q1, pn, pn1) && CalmAt(m1, m2, q1, q2, pn1, pn2)
    ensures CalmAt(m, m2, q, q2, pn, pn2)
  {
  }

  /** Cutting pending at a removed nonce, with the virtual nonce stepping back to it. */
  lemma CutRests(m: Items, q: Items, s: nat, pn: nat, n: nat)
    requires Range(m, s, pn) && Fresh(q, s) && n in m
    ensures Range(Below(m, n), s, Min(pn, n)) && Fresh(q + AtLeast(m, n + 1), s)
  {
  }

  lemma CutStaysSolid(m: Items, s: nat, n: nat)
    requires Solid(m, s)
    ensures Solid(Below(m, n), s)
  {
  }

  lemma StillFresh(q: Items, s: nat, n: nat)
    requires Fresh(q, s)
    ensures Fresh(q - {n}, s)
  {
  }

  lemma FreshWith(q: Items, s: nat, tx: Tx)
    requires Fresh(q, s) && s <= tx.nonce
    ensures Fresh(q[tx.nonce := tx], s)
  {
  }

  lemma SameKeys(m: Items, m': Items, s: nat, pn: nat)
    requires m.Keys == m'.Keys
    ensures Range(m, s, pn) ==> Range(m', s, pn)
    ensures Solid(m, s) ==> Solid(m', s)
    ensures Fresh(m, s) ==> Fresh(m', s)
  {
    assert forall n :: n in m <==> n in m';
  }

  lemma ExactNext(m: Items, s: nat, k: nat, tx: Tx)
    requires Exact(m, s, k) && s <= k == tx.nonce
    ensures Exact(m[k := tx], s, k + 1)
  {
  }

  lemma ExactIsSolid(m: Items, s: nat, pn: nat)
    requires Exact(m, s, pn)
    ensures Solid(m, s)
  {
  }

  /** Promoting a ready run keeps an account following, and keeps old nonces out. */
  lemma PromotedFollows(m: Items, r: Items, s: nat, pn: nat, hi: nat, balance: int, maxGas: nat)
    requires Exact(m, s, pn) && s <= pn <= hi && Range(r, pn, hi) && Exact(m + r, s, hi)
    requires Paid(r, s, balance, maxGas)
    ensures Following(m, s, pn, balance, maxGas) ==> Following(m + r, s, hi, balance, maxGas)
    ensures Fresh(m, s) ==> Fresh(m + r, s)
    ensures Solid(m + r, s)
  {
  }

  lemma RangeEmpty(m: Items, k: nat)
    requires Range(m, k, k)
    ensures m == map[]
  {
  }

  lemma ReadyPart(q: Items, start: nat, s: nat, balance: int, maxGas: nat)
    requires Paid(q, s, balance, maxGas)
    ensures var r := Readies(q, start);
            Paid(r, s, balance, maxGas) && q - (q - r.Keys).Keys == r && Within(q - r.Keys, q)
  {
  }

  lemma ForwardedFresh(m: Items, s: nat)
    ensures Fresh(AtLeast(m, s), s)
  {
  }

  lemma NoneUsable(s: nat, balance: int, maxGas: nat)
    ensures AtLeast(map[], s) == map[] && Payable(false, map[], balance, maxGas) == map[]
  {
  }

  lemma PartFresh(m: Items, m': Items, s: nat)
    requires Fresh(m, s) && Within(m', m)
    ensures Fresh(m', s)
  {
  }

  lemma NothingQueued(s: nat, balance: int, maxGas: nat)
    ensures Fresh(map[], s) && Paid(map[], s, balance, maxGas)
  {
  }

  lemma FollowingEither(m: Items, s: nat, pn: nat, balance: int, maxGas: nat)
    ensures Following(m, s, pn, balance, maxGas) ==> pn <= s || Exact(m, s, pn)
  {
  }

  /** Dropping old and unpayable transactions of a following account leaves a gap-free list that starts at the
      state nonce, and loses nothing that the virtual nonce counts. */
  lemma DemotedSteady(m: Items, s: nat, pn: nat, balance: int, maxGas: nat)
    requires Solid(m, s) && Following(m, s, pn, balance, maxGas)
    ensures var kept := Payable(true, AtLeast(m, s), balance, maxGas);
            && Fresh(kept, s) && Solid(kept, s) && (pn <= s || Exact(kept, s, pn)) && (kept != map[] ==> s in kept)
  {
    var m1 := AtLeast(m, s);
    var out := Dropped(m1, balance, maxGas);
    var kept := Payable(true, m1, balance, maxGas);
    PayableStays(true, m1, balance, maxGas);
    if pn > s {
      forall n | n in m1
        ensures n !in out
      {
      }
      assert out == map[];
      assert kept == m1;
    }
    if kept != map[] { var n :| n in kept; }
  }

  lemma MergeFresh(q: Items, r: Items, s: nat)
    requires Fresh(q, s) && Fresh(r, s)
    ensures Fresh(q + r, s)
  {
  }

  lemma EmptyPayable(balance: int, maxGas: nat)
    ensures Payable(true, map[], balance, maxGas) == map[] && Invalidated(map[], balance, maxGas) == map[]
    ensures Within(map[], map[])
  {
  }

  lemma InvalidatedPart(m: Items, balance: int, maxGas: nat)
    ensures Within(Invalidated(m, balance, maxGas), m)
  {
  }

  lemma RangeTop(m: Items, s: nat, pn: nat)
    requires m != map[]
    ensures Range(m, s, pn) ==> Greatest(m.Keys) + 1 == pn
  {
    assert Range(m, s, pn) ==> pn - 1 in m.Keys;
  }

  /** m' keeps the lowest nonces of m. */
  ghost predicate LowPart(m': Items, m: Items) {
    Within(m', m) && forall n, x :: n in m' && x in m && x !in m' ==> n < x
  }

  lemma LowPartTop(m: Items)
    requires m != map[]
    ensures var g := Greatest(m.Keys);
            && Lowest(m, |m| - 1) == m - {g} && LowPart(m - {g}, m) && |m - {g}| == |m| - 1
            && m - (m - {g}).Keys == map[g := m[g]]
  {
    var g := Greatest(m.Keys);
    assert (m - {g}).Keys == m.Keys - {g};
  }

  lemma LowPartChain(a: Items, b: Items, c: Items)
    requires LowPart(a, b) && LowPart(b, c)
    ensures LowPart(a, c)
  {
    forall n, x | n in a && x in c && x !in a
      ensures n < x
    {
      assert n in b;
    }
  }

  lemma LowPartSelf(m: Items)
    ensures LowPart(m, m)
  {
  }

  /** A steady list reaches exactly up to its highest nonce. */
  lemma SteadyTop(m: Items, s: nat)
    requires Fresh(m, s) && Solid(m, s) && m != map[]
    ensures Range(m, s, Greatest(m.Keys) + 1)
  {
    var g := Greatest(m.Keys);
    assert forall n: nat :: s <= n <= g ==> n in m;
  }

  lemma TopAhead(m: Items, s: nat)
    requires m != map[] && Fresh(m, s)
    ensures s <= Greatest(m.Keys) + 1
  {
  }

  /** Without pending transactions the virtual nonce leaves an empty range. */
  lemma SteadyNone(s: nat, pn: nat)
    requires pn <= s || Exact(map[], s, pn)
    ensures Range(map[], s, pn)
  {
    var none: Items := map[];
    assert forall n: nat :: s <= n && Exact(none, s, pn) ==> (n in none <==> n < pn);
  }

  lemma RangeIsSteady(m: Items, s: nat, pn: nat)
    requires Range(m, s, pn)
    ensures Fresh(m, s) && Solid(m, s) && Exact(m, s, pn)
  {
  }
}
