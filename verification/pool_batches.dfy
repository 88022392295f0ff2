/** What a pool with room answers to a batch, from the set of pooled transactions alone. */
module PoolBatches {
  import opened Transactions
  import opened TxLists
  import opened PoolStructure

  datatype PoolError =
    | AlreadyKnown | TxTypeNotSupported | OversizedData | NegativeValue | GasLimit | FeeCapVeryHigh | TipVeryHigh
    | TipAboveFeeCap | InvalidSender | UnderpricedTx | NonceTooLow | InsufficientFunds | IntrinsicGas
    | TxPoolOverflow | ReplaceUnderpriced

  datatype Outcome = Ok(replaced: bool) | Failed(error: PoolError) {
    function Error(): Option<PoolError> { if Ok? then None else Some(error) }
  }

  function SetOf(s: seq<Tx>): set<Tx> { set tx | tx in s }

  /** The pooled transactions of the account and nonce of tx. */
  ghost function Rivals(txs: set<Tx>, tx: Tx): set<Tx> {
    set t | t in txs && t.from == tx.from && t.nonce == tx.nonce
  }

  /** The answer to tx, of which validation says `invalid`. */
  ghost function Judge(txs: set<Tx>, tx: Tx, invalid: Option<PoolError>, priceBump: nat): Outcome {
    if tx in txs then Failed(AlreadyKnown)
    else if invalid.Some? then Failed(invalid.value)
    else if exists t :: t in Rivals(txs, tx) && !Outbids(tx, t, priceBump) then Failed(ReplaceUnderpriced)
    else Ok(Rivals(txs, tx) != {})
  }

  /** What is pooled after that answer. */
  ghost function Swapped(txs: set<Tx>, tx: Tx, r: Outcome): set<Tx> {
    if r.Ok? then txs - Rivals(txs, tx) + {tx} else txs
  }

  /** In a settled pool the rivals of tx are the holder of its nonce. */
  lemma RivalsHold(p: Shelf, q: Shelf, txs: set<Tx>, tx: Tx)
    requires Settled(p, q, txs)
    ensures Rivals(txs, tx) == HolderSet(HolderIn(p, q, tx.from, tx.nonce))
  {
    hide Settled, HolderIn;
    HolderPooled(p, q, txs, tx.from, tx.nonce);
  }

  /** The answer in terms of the holder. */
  lemma JudgeHeld(txs: set<Tx>, tx: Tx, invalid: Option<PoolError>, priceBump: nat, held: Option<Tx>)
    requires Rivals(txs, tx) == HolderSet(held)
    ensures Judge(txs, tx, invalid, priceBump)
            == if tx in txs then Failed(AlreadyKnown)
               else if invalid.Some? then Failed(invalid.value)
               else if held.Some? && !Outbids(tx, held.value, priceBump) then Failed(ReplaceUnderpriced)
               else Ok(held.Some?)
  {
    if held.Some? { assert held.value in Rivals(txs, tx); }
  }

  /** Transactions of other nonces change neither the answer nor the rivals. */
  lemma JudgeApart(txs: set<Tx>, txs': set<Tx>, tx: Tx, invalid: Option<PoolError>, priceBump: nat)
    requires Rivals(txs', tx) == Rivals(txs, tx)
    ensures Judge(txs', tx, invalid, priceBump) == Judge(txs, tx, invalid, priceBump)
  {
    assert tx in txs <==> tx in Rivals(txs, tx);
    assert tx in txs' <==> tx in Rivals(txs', tx);
  }

  lemma SwapApart(txs: set<Tx>, tx: Tx, r: Outcome, other: Tx)
    requires tx.from != other.from || tx.nonce != other.nonce
    ensures Rivals(Swapped(txs, tx, r), other) == Rivals(txs, other)
  {
  }

  lemma SwapGrows(txs: set<Tx>, tx: Tx, r: Outcome)
    ensures |Swapped(txs, tx, r)| <= |txs| + 1
  {
    var rest := txs - Rivals(txs, tx);
    assert txs == rest + Rivals(txs, tx);
    assert |rest| <= |txs|;
  }

  // ----- batches -----

  /** What is pooled after a batch; `invalids` is what validation says of its members. */
  ghost function Standing(txs: set<Tx>, batch: seq<Tx>, invalids: seq<Option<PoolError>>, priceBump: nat): set<Tx>
    requires |batch| == |invalids|
  {
    if batch == [] then txs
    else
      var n := |batch| - 1;
      var before := Standing(txs, batch[..n], invalids[..n], priceBump);
      Swapped(before, batch[n], Judge(before, batch[n], invalids[n], priceBump))
  }

  lemma NoneStand(txs: set<Tx>, priceBump: nat)
    ensures Standing(txs, [], [], priceBump) == txs && forall tx :: tx in txs ==> Rivals(txs, tx) != {}
  {
    assert forall tx :: tx in txs ==> tx in Rivals(txs, tx);
  }

  /** The answer to the i-th member: the one it gets from what stands after those before it. */
  ghost function Verdict(txs: set<Tx>, batch: seq<Tx>, invalids: seq<Option<PoolError>>, priceBump: nat, i: nat)
    : Outcome
    requires i < |batch| == |invalids|
  {
    Judge(Standing(txs, batch[..i], invalids[..i], priceBump), batch[i], invalids[i], priceBump)
  }

  /** The first members have been answered exactly so, and this is what is pooled now. */
  ghost predicate Answered(txs: set<Tx>, now: set<Tx>, batch: seq<Tx>, invalids: seq<Option<PoolError>>,
                           priceBump: nat, results: seq<Outcome>)
    requires |results| <= |batch| == |invalids|
  {
    && now == Standing(txs, batch[..|results|], invalids[..|results|], priceBump)
    && forall i :: 0 <= i < |results| ==> results[i] == Verdict(txs, batch, invalids, priceBump, i)
  }

  lemma AnsweredNone(txs: set<Tx>, batch: seq<Tx>, invalids: seq<Option<PoolError>>, priceBump: nat)
    requires |batch| == |invalids|
    ensures Answered(txs, txs, batch, invalids, priceBump, [])
  {
  }

  lemma AnsweredNext(txs: set<Tx>, now: set<Tx>, batch: seq<Tx>, invalids: seq<Option<PoolError>>, priceBump: nat,
                     results: seq<Outcome>, r: Outcome)
    requires |results| < |batch| == |invalids| && Answered(txs, now, batch, invalids, priceBump, results)
    requires r == Judge(now, batch[|results|], invalids[|results|], priceBump)
    ensures Answered(txs, Swapped(now, batch[|results|], r), batch, invalids, priceBump, results + [r])
  {
    hide Judge, Swapped;
    var n := |results|;
    assert batch[..n + 1][..n] == batch[..n] && invalids[..n + 1][..n] == invalids[..n];
  }

  /** A nonce that is held stays held. */
  lemma SwapHeld(txs: set<Tx>, tx: Tx, invalid: Option<PoolError>, priceBump: nat, other: Tx)
    ensures var now := Swapped(txs, tx, Judge(txs, tx, invalid, priceBump));
            && (Rivals(txs, other) != {} ==> Rivals(now, other) != {})
            && (invalid.None? ==> Rivals(now, tx) != {})
  {
    var now := Swapped(txs, tx, Judge(txs, tx, invalid, priceBump));
    if tx in now { assert tx in Rivals(now, tx); }
    if t :| t in Rivals(txs, other) { assert t in now || tx in Rivals(now, other); }
  }

  /** After a batch every valid member finds its nonce held, by itself or by another. */
  lemma {:induction false} StandingHeld(txs: set<Tx>, batch: seq<Tx>, invalids: seq<Option<PoolError>>,
                                        priceBump: nat, i: nat)
    requires i < |batch| == |invalids| && invalids[i].None?
    ensures Rivals(Standing(txs, batch, invalids, priceBump), batch[i]) != {}
  {
    hide Swapped, Judge, Rivals;
    var n := |batch| - 1;
    SwapHeld(Standing(txs, batch[..n], invalids[..n], priceBump), batch[n], invalids[n], priceBump, batch[i]);
    if i < n { StandingHeld(txs, batch[..n], invalids[..n], priceBump, i); }
  }

  lemma AnsweredHeld(txs: set<Tx>, now: set<Tx>, batch: seq<Tx>, invalids: seq<Option<PoolError>>, priceBump: nat,
                     results: seq<Outcome>, i: nat)
    requires i < |results| == |batch| == |invalids| && invalids[i].None?
    requires Answered(txs, now, batch, invalids, priceBump, results)
    ensures Rivals(now, batch[i]) != {}
  {
    assert batch[..|batch|] == batch && invalids[..|batch|] == invalids;
    StandingHeld(txs, batch, invalids, priceBump, i);
  }

  /** Room or not: an invalid member is refused as known or as invalid, and nothing but members that got in is new. */
  ghost predicate Reported(txs: set<Tx>, now: set<Tx>, batch: seq<Tx>, invalids: seq<Option<PoolError>>,
                           results: seq<Outcome>)
    requires |results| <= |batch| == |invalids|
  {
    && (forall i :: 0 <= i < |results| && invalids[i].Some? ==>
          results[i] == Failed(AlreadyKnown) || results[i].Error() == invalids[i])
    && (forall tx :: tx in now && tx !in txs ==> exists i :: 0 <= i < |results| && results[i].Ok? && batch[i] == tx)
  }

  lemma NoneReported(txs: set<Tx>, batch: seq<Tx>, invalids: seq<Option<PoolError>>)
    requires |batch| == |invalids|
    ensures Reported(txs, txs, batch, invalids, [])
  {
  }

  lemma ReportedNext(txs: set<Tx>, now: set<Tx>, now': set<Tx>, batch: seq<Tx>, invalids: seq<Option<PoolError>>,
                     results: seq<Outcome>, r: Outcome)
    requires |results| < |batch| == |invalids| && Reported(txs, now, batch, invalids, results)
    requires invalids[|results|].Some? ==> r == Failed(AlreadyKnown) || r.Error() == invalids[|results|]
    requires now' <= now + {batch[|results|]} && (r.Failed? ==> now' <= now)
    ensures Reported(txs, now', batch, invalids, results + [r])
  {
    var more := results + [r];
    forall tx | tx in now' && tx !in txs
      ensures exists i :: 0 <= i < |more| && more[i].Ok? && batch[i] == tx
    {
      if tx in now {
        var i :| 0 <= i < |results| && results[i].Ok? && batch[i] == tx;
        assert more[i].Ok?;
      } else {
        assert more[|results|].Ok?;
      }
    }
  }

  /** What is new got in, and so is valid. */
  lemma NewcomerValid(txs: set<Tx>, now: set<Tx>, batch: seq<Tx>, invalids: seq<Option<PoolError>>,
                      results: seq<Outcome>, tx: Tx) returns (i: nat)
    requires |results| == |batch| == |invalids| && Reported(txs, now, batch, invalids, results)
    requires tx in now && Rivals(txs, tx) == {}
    ensures i < |batch| && batch[i] == tx && invalids[i].None?
  {
    assert tx !in txs by { assert tx in txs ==> tx in Rivals(txs, tx); }
    i :| 0 <= i < |results| && results[i].Ok? && batch[i] == tx;
  }

  lemma {:induction false} StandingGrows(txs: set<Tx>, batch: seq<Tx>, invalids: seq<Option<PoolError>>, priceBump: nat)
    requires |batch| == |invalids|
    ensures |Standing(txs, batch, invalids, priceBump)| <= |txs| + |batch|
  {
    hide Swapped, Judge;
    if batch != [] {
      var n := |batch| - 1;
      var before := Standing(txs, batch[..n], invalids[..n], priceBump);
      StandingGrows(txs, batch[..n], invalids[..n], priceBump);
      SwapGrows(before, batch[n], Judge(before, batch[n], invalids[n], priceBump));
    }
  }

  /** No two members of the batch are of the same account and nonce. */
  ghost predicate Unrelated(batch: seq<Tx>) {
    forall i, j :: 0 <= i < j < |batch| ==> batch[i].from != batch[j].from || batch[i].nonce != batch[j].nonce
  }

  /** Members of other accounts or nonces leave the rivals of a transaction alone. */
  lemma {:induction false} StandingApart(txs: set<Tx>, batch: seq<Tx>, invalids: seq<Option<PoolError>>,
                                         priceBump: nat, tx: Tx)
    requires |batch| == |invalids|
    requires forall i :: 0 <= i < |batch| ==> batch[i].from != tx.from || batch[i].nonce != tx.nonce
    ensures Rivals(Standing(txs, batch, invalids, priceBump), tx) == Rivals(txs, tx)
  {
    hide Swapped, Judge, Rivals;
    if batch != [] {
      var n := |batch| - 1;
      var before := Standing(txs, batch[..n], invalids[..n], priceBump);
      StandingApart(txs, batch[..n], invalids[..n], priceBump, tx);
      SwapApart(before, batch[n], Judge(before, batch[n], invalids[n], priceBump), tx);
    }
  }

  /** In such a batch every member is answered as if it were alone. */
  lemma VerdictAlone(txs: set<Tx>, batch: seq<Tx>, invalids: seq<Option<PoolError>>, priceBump: nat, i: nat)
    requires i < |batch| == |invalids| && Unrelated(batch)
    ensures Verdict(txs, batch, invalids, priceBump, i) == Judge(txs, batch[i], invalids[i], priceBump)
  {
    hide Judge, Rivals;
    StandingApart(txs, batch[..i], invalids[..i], priceBump, batch[i]);
    JudgeApart(txs, Standing(txs, batch[..i], invalids[..i], priceBump), batch[i], invalids[i], priceBump);
  }

  /** A transaction is pooled after such a batch exactly if it is a member that got in, or was pooled and is no rival of
      one. */
  lemma {:induction false} StandingAlone(txs: set<Tx>, batch: seq<Tx>, invalids: seq<Option<PoolError>>,
                                         priceBump: nat, tx: Tx)
    requires |batch| == |invalids| && Unrelated(batch)
    ensures tx in Standing(txs, batch, invalids, priceBump) <==>
              || (exists i :: 0 <= i < |batch| && Judge(txs, batch[i], invalids[i], priceBump).Ok? && batch[i] == tx)
              || (tx in txs && forall i :: 0 <= i < |batch| && Judge(txs, batch[i], invalids[i], priceBump).Ok? ==>
                    tx !in Rivals(txs, batch[i]))
  {
    hide Judge;
    if batch != [] {
      var n := |batch| - 1;
      var front, checks := batch[..n], invalids[..n];
      StandingAlone(txs, front, checks, priceBump, tx);
      VerdictAlone(txs, batch, invalids, priceBump, n);
      StandingApart(txs, front, checks, priceBump, batch[n]);
      var before := Standing(txs, front, checks, priceBump);
      var r := Judge(txs, batch[n], invalids[n], priceBump);
      assert Standing(txs, batch, invalids, priceBump) == Swapped(before, batch[n], r);
      assert forall i :: 0 <= i < n ==> batch[i] == front[i] && invalids[i] == checks[i];
      assert tx in before && tx in Rivals(before, batch[n]) <==> tx in Rivals(txs, batch[n]);
    }
  }

  /** If nothing of the account and nonce of tx was pooled before and something is now, a member was queued there
      without replacing one. */
  lemma {:induction false} StandingNew(txs: set<Tx>, batch: seq<Tx>, invalids: seq<Option<PoolError>>, priceBump: nat,
                                       tx: Tx) returns (i: nat)
    requires |batch| == |invalids| && Rivals(txs, tx) == {} && tx in Standing(txs, batch, invalids, priceBump)
    ensures i < |batch| && batch[i].from == tx.from && Verdict(txs, batch, invalids, priceBump, i) == Ok(false)
  {
    assert tx !in txs by { assert tx in txs ==> tx in Rivals(txs, tx); }
    var n := |batch| - 1;
    var before := Standing(txs, batch[..n], invalids[..n], priceBump);
    if t :| t in Rivals(before, tx) {
      assert Rivals(txs, t) == Rivals(txs, tx);
      i := StandingNew(txs, batch[..n], invalids[..n], priceBump, t);
      assert batch[..n][..i] == batch[..i] && invalids[..n][..i] == invalids[..i];
    } else {
      assert tx !in before by { assert tx in before ==> tx in Rivals(before, tx); }
      i := n;
    }
  }

  // ----- sorting out what a caller hands in -----

  /** What is new and has a sender, in order. */
  function News(txs: seq<Tx>, known: set<Tx>): seq<Tx> {
    if txs == [] then []
    else
      var tx := txs[|txs| - 1];
      News(txs[..|txs| - 1], known) + if tx in known || !tx.signed then [] else [tx]
  }

  /** Why a transaction is not even looked at. */
  function Presorted(tx: Tx, known: set<Tx>): Option<PoolError> {
    if tx in known then Some(AlreadyKnown) else if !tx.signed then Some(InvalidSender) else None
  }

  lemma NewsNone(txs: seq<Tx>, known: set<Tx>)
    ensures News(txs[..0], known) == []
  {
  }

  lemma NewsNext(txs: seq<Tx>, known: set<Tx>, i: nat)
    requires i < |txs|
    ensures Presorted(txs[i], known)
            == if txs[i] in known then Some(AlreadyKnown) else if !txs[i].signed then Some(InvalidSender) else None
    ensures News(txs[..i + 1], known) == News(txs[..i], known) + if Presorted(txs[i], known).Some? then [] else [txs[i]]
  {
    assert txs[..i + 1][..i] == txs[..i];
  }

  /** How many of the first i are new. */
  ghost function Rank(txs: seq<Tx>, known: set<Tx>, i: nat): nat
    requires i <= |txs|
  {
    |News(txs[..i], known)|
  }

  lemma RankNext(txs: seq<Tx>, known: set<Tx>, i: nat)
    requires i < |txs|
    ensures Rank(txs, known, i + 1) == Rank(txs, known, i) + if Presorted(txs[i], known).Some? then 0 else 1
  {
    assert txs[..i + 1][..i] == txs[..i];
  }

  lemma {:induction false} RankGrows(txs: seq<Tx>, known: set<Tx>, i: nat, j: nat)
    requires i <= j <= |txs|
    ensures Rank(txs, known, i) <= Rank(txs, known, j)
    ensures Rank(txs, known, i) < Rank(txs, known, j) <==>
              exists k :: i <= k < j && Presorted(txs[k], known).None?
  {
    hide Rank, Presorted;
    if i < j {
      RankGrows(txs, known, i, j - 1);
      RankNext(txs, known, j - 1);
    }
  }

  lemma RankAll(txs: seq<Tx>, known: set<Tx>)
    ensures Rank(txs, known, 0) == 0 && Rank(txs, known, |txs|) == |News(txs, known)|
  {
    assert txs[..|txs|] == txs;
  }

  /** The i-th transaction, if new, is the one that comes after as many as are new before it. */
  lemma {:induction false} NewsAt(txs: seq<Tx>, known: set<Tx>, i: nat)
    requires i < |txs| && Presorted(txs[i], known).None?
    ensures Rank(txs, known, i) < |News(txs, known)| && News(txs, known)[Rank(txs, known, i)] == txs[i]
  {
    var n := |txs| - 1;
    if i < n {
      NewsAt(txs[..n], known, i);
      assert txs[..n][..i] == txs[..i];
    }
  }

  /** The i-th caller has its answer: why it was sorted out, or the answer to its transaction. */
  ghost predicate Told(txs: seq<Tx>, known: set<Tx>, results: seq<Outcome>, errs: seq<Option<PoolError>>, i: nat)
    requires i < |txs| == |errs|
  {
    if Presorted(txs[i], known).Some? then errs[i] == Presorted(txs[i], known)
    else Rank(txs, known, i) < |results| && errs[i] == results[Rank(txs, known, i)].Error()
  }

  lemma NoneNew(txs: seq<Tx>, known: set<Tx>, preset: seq<Option<PoolError>>)
    requires |preset| == |txs| && News(txs, known) == []
    requires forall i :: 0 <= i < |txs| ==> preset[i] == Presorted(txs[i], known)
    ensures forall i :: 0 <= i < |txs| ==> Told(txs, known, [], preset, i)
  {
    hide News, Rank;
    RankAll(txs, known);
    RankGrows(txs, known, 0, |txs|);
  }

  /** Put the answers into the slots that are still free, in order. */
  method Merge(preset: seq<Option<PoolError>>, results: seq<Outcome>, ghost txs: seq<Tx>, ghost known: set<Tx>)
    returns (errs: seq<Option<PoolError>>)
    requires |preset| == |txs| && |results| == |News(txs, known)|
    requires forall i :: 0 <= i < |txs| ==> preset[i] == Presorted(txs[i], known)
    ensures |errs| == |txs| && forall i :: 0 <= i < |txs| ==> Told(txs, known, results, errs, i)
  {
    hide Rank, Presorted, News;
    errs := preset;
    var slot := 0;
    RankAll(txs, known);
    for k := 0 to |results|
      invariant 0 <= slot <= |txs| == |errs| && k == Rank(txs, known, slot)
      invariant forall i :: slot <= i < |txs| ==> errs[i] == Presorted(txs[i], known)
      invariant forall i :: 0 <= i < slot ==> Told(txs, known, results, errs, i)
    {
      assert slot < |txs|;
      while errs[slot].Some?
        invariant 0 <= slot < |txs| && k == Rank(txs, known, slot)
        invariant forall i :: 0 <= i < slot ==> Told(txs, known, results, errs, i)
        decreases |txs| - slot
      {
        RankNext(txs, known, slot);
        slot := slot + 1;
        assert slot < |txs|;
      }
      RankNext(txs, known, slot);
      ghost var was := errs;
      errs := errs[slot := results[k].Error()];
      forall i | 0 <= i < slot
        ensures Told(txs, known, results, errs, i)
      {
        assert Told(txs, known, results, was, i) && errs[i] == was[i];
      }
      slot := slot + 1;
    }
    RankGrows(txs, known, slot, |txs|);
  }
}
