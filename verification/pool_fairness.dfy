/** The bookkeeping of truncatePending: offenders are cut in step, longest accounts first. */
module PoolFairness {
  import opened Transactions
  import opened TxLists
  import opened PoolStructure
  import opened PoolNonces

  /** These accounts have equally many transactions. */
  ghost predicate Even(p: Shelf, offs: seq<Address>) {
    forall i, j :: 0 <= i < |offs| && 0 <= j < |offs| ==> |At(p, offs[i])| == |At(p, offs[j])|
  }

  /** These accounts kept their lowest nonces and nothing else changed. */
  ghost predicate TrimmedTo(p0: Shelf, p: Shelf, offs: seq<Address>) {
    && (forall o :: o in offs ==> LowPart(At(p, o), At(p0, o)))
    && (forall x :: x !in offs ==> At(p, x) == At(p0, x))
  }

  lemma TrimNone(p: Shelf, offs: seq<Address>)
    ensures TrimmedTo(p, p, offs)
  {
    forall o | o in offs
      ensures LowPart(At(p, o), At(p, o))
    {
      LowPartSelf(At(p, o));
    }
  }

  lemma EvenAlive(p: Shelf, offs: seq<Address>)
    requires Even(p, offs) && offs != [] && |At(p, offs[|offs| - 1])| > 0
    ensures forall o :: o in offs ==> At(p, o) != map[]
  {
    forall o | o in offs
      ensures At(p, o) != map[]
    {
      var i :| 0 <= i < |offs| && offs[i] == o;
      assert |At(p, offs[i])| == |At(p, offs[|offs| - 1])|;
    }
  }

  /** One more from each. */
  ghost predicate RoundDone(p: Shelf, p': Shelf, offs: seq<Address>) {
    && (forall o :: o in offs ==> LowPart(At(p', o), At(p, o)) && |At(p', o)| == |At(p, o)| - 1)
    && (forall x :: x !in offs ==> At(p', x) == At(p, x))
  }

  lemma TrimRound(p0: Shelf, p: Shelf, p': Shelf, offs: seq<Address>)
    requires TrimmedTo(p0, p, offs) && Even(p, offs) && RoundDone(p, p', offs)
    ensures TrimmedTo(p0, p', offs) && Even(p', offs)
    ensures offs != [] ==> |At(p', offs[|offs| - 1])| == |At(p, offs[|offs| - 1])| - 1
  {
    forall o | o in offs
      ensures LowPart(At(p', o), At(p0, o))
    {
      LowPartChain(At(p', o), At(p, o), At(p0, o));
    }
    forall i, j | 0 <= i < |offs| && 0 <= j < |offs|
      ensures |At(p', offs[i])| == |At(p', offs[j])|
    {
      assert offs[i] in offs && offs[j] in offs;
      assert |At(p, offs[i])| == |At(p, offs[j])|;
    }
  }

  /** The accounts cut so far and the accounts still waiting to be cut: every account that is over its allowance and
      not local is one of them, and none waiting is longer than one that was cut. */
  ghost predicate Offending(p0: Shelf, p: Shelf, locals: set<Address>, slots: nat, offs: seq<Address>,
                            spam: map<Address, nat>) {
    && Distinct(offs) && TrimmedTo(p0, p, offs)
    && (forall o :: o in offs ==> o !in locals && |At(p0, o)| > slots && |At(p, o)| > slots)
    && (forall a :: a in spam ==> a !in offs && a !in locals && spam[a] == |At(p, a)| > slots)
    && (forall a :: a !in locals && |At(p0, a)| > slots ==> a in offs || a in spam)
    && (forall o, a :: o in offs && a in spam ==> spam[a] <= |At(p, o)|)
  }

  /** What truncation may do: offenders are not local, were over the allowance and keep at least it; they keep their
      lowest nonces, and every other account is as it was. */
  ghost predicate FairCut(p0: Shelf, p: Shelf, locals: set<Address>, slots: nat, offs: seq<Address>) {
    && Distinct(offs) && TrimmedTo(p0, p, offs)
    && (forall o :: o in offs ==> o !in locals && |At(p0, o)| > slots && |At(p, o)| >= slots)
  }

  lemma OffendStart(p: Shelf, locals: set<Address>, slots: nat, spam: map<Address, nat>)
    requires forall a :: a in spam <==> a in p && a !in locals && |p[a].items| > slots
    requires forall a :: a in spam ==> spam[a] == |p[a].items|
    ensures Offending(p, p, locals, slots, [], spam)
  {
    TrimNone(p, []);
  }

  lemma {:induction false} LongestExists(spam: map<Address, nat>, s: set<Address>)
    requires s != {} && s <= spam.Keys
    ensures exists o :: o in s && forall a :: a in s ==> spam[a] <= spam[o]
  {
    var b :| b in s;
    if s == {b} {
      assert forall a :: a in s ==> spam[a] <= spam[b];
    } else {
      assert s == s - {b} + {b};
      LongestExists(spam, s - {b});
      var o :| o in s - {b} && forall a :: a in s - {b} ==> spam[a] <= spam[o];
      var best := if spam[b] <= spam[o] then o else b;
      forall a | a in s
        ensures spam[a] <= spam[best]
      {
        assert a == b || a in s - {b};
      }
      assert best in s;
    }
  }

  /** The longest waiting account joins after the others were cut down towards its length. */
  lemma OffendNext(p0: Shelf, p: Shelf, p': Shelf, locals: set<Address>, slots: nat, offs: seq<Address>,
                   spam: map<Address, nat>, o: Address)
    requires Offending(p0, p, locals, slots, offs, spam) && o in spam && forall a :: a in spam ==> spam[a] <= spam[o]
    requires TrimmedTo(p, p', offs) && Even(p', offs) && (offs != [] ==> |At(p', offs[|offs| - 1])| >= spam[o])
    ensures Offending(p0, p', locals, slots, offs + [o], spam - {o})
    ensures (offs == [] || |At(p', offs[|offs| - 1])| == spam[o]) ==> Even(p', offs + [o])
  {
    var offs' := offs + [o];
    forall x | x in offs'
      ensures x !in locals && |At(p0, x)| > slots && |At(p', x)| >= spam[o] > slots && LowPart(At(p', x), At(p0, x))
    {
      if x in offs {
        var i :| 0 <= i < |offs| && offs[i] == x;
        assert |At(p', offs[i])| == |At(p', offs[|offs| - 1])|;
        LowPartChain(At(p', x), At(p, x), At(p0, x));
      } else {
        assert x == o && At(p', o) == At(p, o) == At(p0, o);
        LowPartSelf(At(p0, o));
      }
    }
    if offs == [] || |At(p', offs[|offs| - 1])| == spam[o] { EvenWith(p', offs, o); }
  }

  lemma EvenWith(p: Shelf, offs: seq<Address>, o: Address)
    requires Even(p, offs) && (offs == [] || |At(p, offs[|offs| - 1])| == |At(p, o)|)
    ensures Even(p, offs + [o])
  {
    var s := offs + [o];
    forall i | 0 <= i < |s|
      ensures |At(p, s[i])| == |At(p, o)|
    {
      if i < |offs| { assert |At(p, offs[i])| == |At(p, offs[|offs| - 1])|; }
    }
  }

  lemma OffendFair(p0: Shelf, p: Shelf, p': Shelf, locals: set<Address>, slots: nat, offs: seq<Address>,
                   spam: map<Address, nat>)
    requires Offending(p0, p, locals, slots, offs, spam)
    requires TrimmedTo(p, p', offs) && (offs != [] ==> Even(p', offs) && |At(p', offs[|offs| - 1])| >= slots)
    ensures FairCut(p0, p', locals, slots, offs)
    ensures spam == map[] && (offs == [] || |At(p', offs[|offs| - 1])| == slots) ==>
              forall a :: a !in locals ==> |At(p', a)| <= slots
  {
    forall x | x in offs
      ensures |At(p', x)| == |At(p', offs[|offs| - 1])| && LowPart(At(p', x), At(p0, x))
    {
      var i :| 0 <= i < |offs| && offs[i] == x;
      assert |At(p', offs[i])| == |At(p', offs[|offs| - 1])|;
      LowPartChain(At(p', x), At(p, x), At(p0, x));
    }
  }

  /** Offenders already fit the fair cut. */
  lemma OffendDone(p0: Shelf, p: Shelf, locals: set<Address>, slots: nat, offs: seq<Address>, spam: map<Address, nat>)
    requires Offending(p0, p, locals, slots, offs, spam)
    ensures FairCut(p0, p, locals, slots, offs)
  {
  }

  lemma EvenNone(p: Shelf)
    ensures Even(p, [])
  {
  }

  lemma EvenPrefix(p: Shelf, offs: seq<Address>)
    requires Even(p, offs) && offs != []
    ensures Even(p, offs[..|offs| - 1])
  {
  }

  /** What the next round may rely on: the longest waiting account is pending as counted and the accounts cut so far
      are distinct and at least as long. */
  lemma OffendFacts(p0: Shelf, p: Shelf, locals: set<Address>, slots: nat, offs: seq<Address>, spam: map<Address, nat>,
                    o: Address)
    requires Offending(p0, p, locals, slots, offs, spam) && o in spam
    ensures Distinct(offs) && o in p && spam[o] == |p[o].items| && (offs != [] ==> |At(p, offs[|offs| - 1])| >= spam[o])
  {
    if offs != [] { assert offs[|offs| - 1] in offs; }
  }

  lemma Joined(offs: seq<Address>, spam: map<Address, nat>, o: Address)
    requires o in spam
    ensures (offs + [o])[..|offs|] == offs && |spam - {o}| < |spam|
  {
    assert (spam - {o}).Keys == spam.Keys - {o};
  }

  lemma OffendLast(p0: Shelf, p: Shelf, locals: set<Address>, slots: nat, offs: seq<Address>, spam: map<Address, nat>)
    requires Offending(p0, p, locals, slots, offs, spam) && offs != []
    ensures Distinct(offs) && |At(p, offs[|offs| - 1])| >= slots
  {
    assert offs[|offs| - 1] in offs;
  }

  // ----- truncating the queue -----

  /** Local queues and those of `waiting` accounts are as they were, the others kept their lowest nonces; while
      something is left to drop, no other account has a queue. */
  ghost predicate Draining(q0: Shelf, q: Shelf, locals: set<Address>, waiting: set<Address>, drop: nat) {
    && (drop > 0 ==> q.Keys <= locals + waiting) && waiting !! locals
    && (forall a :: LowPart(At(q, a), At(q0, a)))
    && (forall a :: a in locals || a in waiting ==> At(q, a) == At(q0, a))
  }

  lemma DrainStart(q: Shelf, locals: set<Address>, waiting: set<Address>)
    requires waiting == q.Keys - locals
    ensures forall drop :: Draining(q, q, locals, waiting, drop)
    ensures Draining(q, q, locals, {}, 0)
  {
    forall a
      ensures LowPart(At(q, a), At(q, a))
    {
      LowPartSelf(At(q, a));
    }
  }

  /** An account that gave up its highest nonces: while more is due it has no queue left. */
  lemma DrainTurn(p: Shelf, q0: Shelf, q: Shelf, q': Shelf, txs: set<Tx>, locals: set<Address>, waiting: set<Address>,
                  waiting': set<Address>, a: Address, drop: nat, drop': nat)
    requires Draining(q0, q, locals, waiting, drop) && a in waiting && drop > 0 && Settled(p, q', txs)
    requires waiting' == waiting - {a} && forall x :: x != a ==> At(q', x) == At(q, x)
    requires LowPart(At(q', a), At(q, a)) && drop' == drop - Min(|At(q, a)|, drop)
    requires |At(q', a)| == |At(q, a)| - Min(|At(q, a)|, drop)
    ensures Draining(q0, q', locals, waiting', drop')
  {
    hide Settled, LowPart, At;
    DrainKeys(p, q, q', txs, locals, waiting, waiting', a);
    DrainLow(q0, q, q', a);
  }

  lemma DrainKeys(p: Shelf, q: Shelf, q': Shelf, txs: set<Tx>, locals: set<Address>, waiting: set<Address>,
                  waiting': set<Address>, a: Address)
    requires Settled(p, q', txs) && q.Keys <= locals + waiting && a in waiting && waiting' == waiting - {a}
    requires forall x :: x != a ==> At(q', x) == At(q, x)
    ensures At(q', a) == map[] ==> q'.Keys <= locals + waiting'
  {
    hide Settled, At;
    SameKeysBut(p, q, q', txs, a);
  }

  lemma DrainLow(q0: Shelf, q: Shelf, q': Shelf, a: Address)
    requires (forall x :: LowPart(At(q, x), At(q0, x))) && LowPart(At(q', a), At(q, a))
    requires forall x :: x != a ==> At(q', x) == At(q, x)
    ensures forall x :: LowPart(At(q', x), At(q0, x))
  {
    hide LowPart, At;
    LowPartChain(At(q', a), At(q, a), At(q0, a));
  }

  lemma DrainedLow(q0: Shelf, q: Shelf, locals: set<Address>, a: Address)
    requires Draining(q0, q, locals, {}, 0)
    ensures LowPart(At(q, a), At(q0, a))
  {
  }

  lemma DrainEnd(q0: Shelf, q: Shelf, locals: set<Address>, waiting: set<Address>, drop: nat)
    requires Draining(q0, q, locals, waiting, drop) && (drop == 0 || waiting == {})
    ensures Draining(q0, q, locals, {}, 0) && (drop > 0 ==> q.Keys <= locals)
  {
  }
}
