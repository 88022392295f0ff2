/** txPricedList: two price heaps over the remote transactions of the pool, used to pick what to evict.
    The set of live remote transactions is the pool's; heap entries may be stale or repeated. */
module PricedLists {
  import opened Transactions
  import Heap = BinaryHeap

  const URGENT_RATIO := 4
  const FLOATING_RATIO := 1

  function EffectiveTip(tx: Tx, baseFee: nat): int {
    if tx.tipCap <= tx.feeCap - baseFee then tx.tipCap else tx.feeCap - baseFee
  }

  function CmpInt(a: int, b: int): int { if a < b then -1 else if a > b then 1 else 0 }

  /** priceHeap.cmp: effective tip if a base fee is set, then fee cap, then tip cap. */
  function Cmp(baseFee: Option<nat>, a: Tx, b: Tx): int {
    if baseFee.Some? && EffectiveTip(a, baseFee.value) != EffectiveTip(b, baseFee.value) then
      CmpInt(EffectiveTip(a, baseFee.value), EffectiveTip(b, baseFee.value))
    else if a.feeCap != b.feeCap then CmpInt(a.feeCap, b.feeCap)
    else CmpInt(a.tipCap, b.tipCap)
  }

  /** priceHeap.Less: the cheaper first, and among equals the later nonce. */
  predicate PriceLess(baseFee: Option<nat>, a: Tx, b: Tx) {
    var c := Cmp(baseFee, a, b);
    c == -1 || (c == 0 && a.nonce > b.nonce)
  }

  // ----- what the comparison means -----

  /** What a transaction is worth to a miner, most important first: with a base fee what is left for the tip, then the
      fee cap and the tip cap. */
  ghost function Rank(baseFee: Option<nat>, tx: Tx): (r: (int, int, int))
    ensures r.1 == tx.feeCap && r.2 == tx.tipCap && (baseFee.None? ==> r.0 == 0)
    ensures baseFee.Some? ==> r.0 <= tx.tipCap && r.0 + baseFee.value <= tx.feeCap
    ensures baseFee.Some? ==> r.0 == tx.tipCap || r.0 + baseFee.value == tx.feeCap
  {
    match baseFee
    case None => (0, tx.feeCap, tx.tipCap)
    case Some(fee) => (if tx.feeCap < tx.tipCap + fee then tx.feeCap - fee else tx.tipCap, tx.feeCap, tx.tipCap)
  }

  ghost predicate Beneath(a: (int, int, int), b: (int, int, int)) {
    a.0 < b.0 || (a.0 == b.0 && (a.1 < b.1 || (a.1 == b.1 && a.2 < b.2)))
  }

  /** The comparison is by rank, and the heaps put the cheaper first and among equals the later nonce. */
  lemma ByRank(baseFee: Option<nat>, a: Tx, b: Tx)
    ensures Cmp(baseFee, a, b) < 0 <==> Beneath(Rank(baseFee, a), Rank(baseFee, b))
    ensures Cmp(baseFee, a, b) == 0 <==> Rank(baseFee, a) == Rank(baseFee, b)
    ensures PriceLess(baseFee, a, b) <==>
              || Beneath(Rank(baseFee, a), Rank(baseFee, b))
              || (Rank(baseFee, a) == Rank(baseFee, b) && a.nonce > b.nonce)
  {
  }

  /** From the fields alone, with a base fee: the smaller of tip cap and fee cap less the fee decides, then the fee cap,
      then the tip cap, then the later nonce. */
  lemma CheaperWithFee(fee: nat, a: Tx, b: Tx)
    ensures var x := if a.tipCap < a.feeCap - fee then a.tipCap else a.feeCap - fee;
            var y := if b.tipCap < b.feeCap - fee then b.tipCap else b.feeCap - fee;
            && (x < y ==> PriceLess(Some(fee), a, b) && Cmp(Some(fee), a, b) < 0)
            && (x == y && a.feeCap < b.feeCap ==> PriceLess(Some(fee), a, b) && Cmp(Some(fee), a, b) < 0)
            && (x == y && a.feeCap == b.feeCap && a.tipCap < b.tipCap ==>
                  PriceLess(Some(fee), a, b) && Cmp(Some(fee), a, b) < 0)
            && (x == y && a.feeCap == b.feeCap && a.tipCap == b.tipCap ==>
                  Cmp(Some(fee), a, b) == 0 && (PriceLess(Some(fee), a, b) <==> a.nonce > b.nonce))
  {
  }

  /** Without a base fee: the fee cap decides, then the tip cap, then the later nonce. */
  lemma CheaperWithoutFee(a: Tx, b: Tx)
    ensures a.feeCap < b.feeCap ==> PriceLess(None, a, b) && Cmp(None, a, b) < 0
    ensures a.feeCap == b.feeCap && a.tipCap < b.tipCap ==> PriceLess(None, a, b) && Cmp(None, a, b) < 0
    ensures a.feeCap == b.feeCap && a.tipCap == b.tipCap ==>
              Cmp(None, a, b) == 0 && (PriceLess(None, a, b) <==> a.nonce > b.nonce)
  {
  }

  function Less(baseFee: Option<nat>): (Tx, Tx) -> bool { (a, b) => PriceLess(baseFee, a, b) }

  lemma LessIsOrder(baseFee: Option<nat>)
    ensures Heap.WeakOrder(Less(baseFee))
  {
    forall a, b, c | !PriceLess(baseFee, b, a) && !PriceLess(baseFee, c, b)
      ensures !PriceLess(baseFee, c, a)
    {
    }
  }

  lemma CmpTransitive(baseFee: Option<nat>, x: Tx, head: Tx, tx: Tx)
    requires !PriceLess(baseFee, x, head) && Cmp(baseFee, head, tx) >= 0
    ensures Cmp(baseFee, x, tx) >= 0
  {
  }

  /** The slots of a list, repeats counted again. */
  ghost function SlotSum(s: seq<Tx>): nat { if s == [] then 0 else SlotSum(s[..|s| - 1]) + NumSlots(s[|s| - 1]) }

  lemma {:induction false} SlotsCovered(s: seq<Tx>, live: set<Tx>)
    requires forall tx :: tx in live ==> tx in s
    ensures SlotsOf(live) <= SlotSum(s)
  {
    if s != [] {
      var last := s[|s| - 1];
      assert forall tx :: tx in live - {last} ==> tx in s[..|s| - 1];
      SlotsCovered(s[..|s| - 1], live - {last});
      if last in live { SlotsWithout(live, last); } else { assert live - {last} == live; }
    } else {
      assert live == {};
    }
  }

  // ----- what the heaps could free -----

  /** The slots an entry is good for: none if it is stale. */
  ghost function Worth(tx: Tx, live: set<Tx>): nat { if tx in live then NumSlots(tx) else 0 }

  /** The slots the live entries fill, repeated entries counted again. */
  ghost function LiveSlots(entries: multiset<Tx>, live: set<Tx>): nat
    decreases |entries|
  {
    if entries == multiset{} then 0
    else
      var tx :| tx in entries;
      Worth(tx, live) + LiveSlots(entries - multiset{tx}, live)
  }

  lemma LivePicks(entries: multiset<Tx>, live: set<Tx>) returns (tx: Tx)
    requires entries != multiset{}
    ensures tx in entries && LiveSlots(entries, live) == Worth(tx, live) + LiveSlots(entries - multiset{tx}, live)
  {
    tx :| tx in entries && LiveSlots(entries, live) == Worth(tx, live) + LiveSlots(entries - multiset{tx}, live);
  }

  lemma {:induction false} LiveWithout(entries: multiset<Tx>, tx: Tx, live: set<Tx>)
    requires tx in entries
    ensures LiveSlots(entries, live) == Worth(tx, live) + LiveSlots(entries - multiset{tx}, live)
    decreases |entries|
  {
    hide LiveSlots, Worth;
    var x := LivePicks(entries, live);
    if x != tx {
      LiveWithout(entries - multiset{x}, tx, live);
      LiveWithout(entries - multiset{tx}, x, live);
      assert entries - multiset{x} - multiset{tx} == entries - multiset{tx} - multiset{x};
    }
  }

  lemma LiveWith(left: multiset<Tx>, tx: Tx, entries: multiset<Tx>, live: set<Tx>)
    requires entries == left + multiset{tx}
    ensures LiveSlots(entries, live) == LiveSlots(left, live) + Worth(tx, live)
  {
    LiveWithout(entries, tx, live);
    assert entries - multiset{tx} == left;
  }

  /** No live transaction is worth less than tx both under the base fee and by its caps alone. */
  ghost predicate NoneBelow(live: set<Tx>, baseFee: Option<nat>, tx: Tx) {
    forall t :: t in live ==>
      !Beneath(Rank(baseFee, t), Rank(baseFee, tx)) || !Beneath(Rank(None, t), Rank(None, tx))
  }

  /** Entries that cover all live transactions are worth at least their slots. */
  lemma {:induction false} LiveCovers(entries: multiset<Tx>, live: set<Tx>, covered: set<Tx>)
    requires covered <= live && forall tx :: tx in covered ==> tx in entries
    ensures SlotsOf(covered) <= LiveSlots(entries, live)
    decreases |covered|
  {
    hide LiveSlots;
    if covered != {} {
      var tx :| tx in covered;
      SlotsWithout(covered, tx);
      LiveWithout(entries, tx, live);
      LiveCovers(entries - multiset{tx}, live, covered - {tx});
    }
  }

  class TxPricedList {
    var urgent: seq<Tx>
    var floating: seq<Tx>
    var baseFee: Option<nat>
    var stales: int

    ghost predicate Valid()
      reads this
    {
      Heap.IsHeap(urgent, Less(baseFee)) && Heap.IsHeap(floating, Less(None))
    }

    /** Every one of these transactions can still be found for eviction. */
    ghost predicate Tracks(remotes: set<Tx>)
      reads this
    {
      forall tx :: tx in remotes ==> Tracked(tx)
    }

    /** All heap entries, repeats counted again. */
    ghost function Entries(): multiset<Tx>
      reads this
    {
      multiset(urgent) + multiset(floating)
    }

    /** Something live is tracked, and no live entry is worth less than tx in the order of its heap. */
    ghost predicate NoneCheaper(tx: Tx, remotes: set<Tx>)
      reads this
    {
      && remotes != {}
      && (forall x :: x in remotes && x in multiset(urgent) ==> !Beneath(Rank(baseFee, x), Rank(baseFee, tx)))
      && (forall x :: x in remotes && x in multiset(floating) ==> !Beneath(Rank(None, x), Rank(None, tx)))
    }

    constructor ()
      ensures Valid() && urgent == [] && floating == []
    {
      urgent, floating, baseFee, stales := [], [], None, 0;
    }

    method Put(tx: Tx, local: bool)
      requires Valid()
      modifies this
      ensures Valid() && floating == old(floating) && baseFee == old(baseFee)
      ensures multiset(urgent) == if local then multiset(old(urgent)) else multiset(old(urgent)) + multiset{tx}
    {
      if local {
        return;
      }
      LessIsOrder(baseFee);
      urgent := Heap.Push(urgent, tx, Less(baseFee));
    }

    method Removed(count: int, remotes: set<Tx>)
      requires Valid()
      modifies this
      ensures Valid() && baseFee == old(baseFee)
      ensures forall tx :: tx in remotes && old(Tracked(tx)) ==> Tracked(tx)
    {
      stales := stales + count;
      if stales <= (|urgent| + |floating|) / 4 {
        return;
      }
      Reheap(remotes);
    }

    /** Rebuild both heaps: each remote once, the worst fifth in the floating heap. */
    method Reheap(remotes: set<Tx>)
      modifies this
      ensures Valid() && Tracks(remotes) && baseFee == old(baseFee)
      ensures multiset(urgent) + multiset(floating) == multiset(remotes)
      ensures |floating| == |remotes| / 5
      // nothing left urgent is worth less than something made floating
      ensures forall f, u :: f in floating && u in urgent ==> !Beneath(Rank(baseFee, u), Rank(baseFee, f))
      ensures forall f, u :: f in floating && u in urgent && Rank(baseFee, u) == Rank(baseFee, f) ==> u.nonce <= f.nonce
    {
      hide Heap.IsHeap, Heap.WeakOrder, PriceLess, Rank, Beneath;
      stales := 0;
      urgent := Heap.ListOf(remotes);
      LessIsOrder(baseFee);
      LessIsOrder(None);
      urgent := Heap.Init(urgent, Less(baseFee));
      assert |urgent| == |multiset(urgent)|;
      var floatingCount := |urgent| * FLOATING_RATIO / (URGENT_RATIO + FLOATING_RATIO);
      var worst := [];
      while |worst| < floatingCount
        invariant |worst| <= floatingCount && |worst| + |urgent| == |remotes| && baseFee == old(baseFee)
        invariant Heap.IsHeap(urgent, Less(baseFee)) && multiset(urgent) + multiset(worst) == multiset(remotes)
        invariant forall f, u :: f in multiset(worst) && u in multiset(urgent) ==> !PriceLess(baseFee, u, f)
      {
        var tx;
        tx, urgent := TakeCheapest(urgent, baseFee);
        assert forall u :: u in multiset(urgent) ==> u in urgent;
        worst := worst + [tx];
      }
      floating := Heap.Init(worst, Less(None));
      assert |floating| == |multiset(floating)| && |worst| == |multiset(worst)|;
      Rebuilt(urgent, floating, worst, remotes, baseFee);
      forall f, u | f in floating && u in urgent
        ensures !Beneath(Rank(baseFee, u), Rank(baseFee, f))
        ensures Rank(baseFee, u) == Rank(baseFee, f) ==> u.nonce <= f.nonce
      {
        ByRank(baseFee, u, f);
      }
    }

    /** Drop stale entries from the top of a heap. */
    static method DropStale(h: seq<Tx>, fee: Option<nat>, remotes: set<Tx>) returns (r: seq<Tx>, gone: nat)
      requires Heap.IsHeap(h, Less(fee))
      ensures Heap.IsHeap(r, Less(fee)) && (r != [] ==> r[0] in remotes)
      ensures multiset(r) <= multiset(h) && forall tx :: tx in remotes ==> multiset(r)[tx] == multiset(h)[tx]
    {
      hide Heap.IsHeap, PriceLess;
      r, gone := h, 0;
      LessIsOrder(fee);
      while |r| > 0 && r[0] !in remotes
        invariant Heap.IsHeap(r, Less(fee)) && multiset(r) <= multiset(h)
        invariant forall tx :: tx in remotes ==> multiset(r)[tx] == multiset(h)[tx]
        decreases |multiset(r)|
      {
        var tx;
        assert r[0] in multiset(r);
        tx, r := Heap.Pop(r, Less(fee));
        gone := gone + 1;
      }
    }

    /** A transaction is underpriced exactly when some remote is live and none is cheaper. */
    method Underpriced(tx: Tx, remotes: set<Tx>) returns (r: bool)
      requires Valid() && Tracks(remotes)
      modifies this
      ensures Valid() && Tracks(remotes) && baseFee == old(baseFee)
      ensures r <==> old(NoneCheaper(tx, remotes))
      ensures LiveSlots(Entries(), remotes) == old(LiveSlots(Entries(), remotes))
    {
      hide Cmp, Heap.IsHeap, LiveSlots, Less, Rank, Beneath;
      var gone;
      ghost var u, f := urgent, floating;
      urgent, gone := DropStale(urgent, baseFee, remotes);
      stales := stales - gone;
      LiveSides(multiset(u), multiset(urgent), multiset(f), remotes);
      CheapestDecides(urgent, baseFee, tx, remotes);
      if urgent != [] && Cmp(baseFee, urgent[0], tx) < 0 {
        return false;
      }
      floating, gone := DropStale(floating, None, remotes);
      stales := stales - gone;
      LiveSides(multiset(f), multiset(floating), multiset(urgent), remotes);
      CheapestDecides(floating, None, tx, remotes);
      r := (floating == [] || Cmp(None, floating[0], tx) >= 0) && (urgent != [] || floating != []);
    }

    ghost predicate Tracked(tx: Tx)
      reads this
    {
      tx in Entries()
    }

    /** Take the cheapest entry off a heap. */
    static method TakeCheapest(h: seq<Tx>, fee: Option<nat>) returns (tx: Tx, r: seq<Tx>)
      requires Heap.IsHeap(h, Less(fee)) && h != []
      ensures Heap.IsHeap(r, Less(fee)) && multiset(h) == multiset(r) + multiset{tx} && |r| == |h| - 1
      ensures forall x :: x in r ==> !PriceLess(fee, x, tx)
    {
      LessIsOrder(fee);
      assert h[0] in multiset(h);
      tx, r := Heap.Pop(h, Less(fee));
      assert |r| == |multiset(r)| && |h| == |multiset(h)|;
      forall x | x in r
        ensures !PriceLess(fee, x, tx)
      {
        assert x in multiset(r) && x in multiset(h);
        assert x in h;
      }
    }

    static method PushOne(h: seq<Tx>, tx: Tx, fee: Option<nat>) returns (r: seq<Tx>)
      requires Heap.IsHeap(h, Less(fee))
      ensures Heap.IsHeap(r, Less(fee)) && multiset(r) == multiset(h) + multiset{tx} && |r| == |h| + 1
    {
      LessIsOrder(fee);
      r := Heap.Push(h, tx, Less(fee));
      assert |r| == |multiset(r)| && |h| == |multiset(h)|;
    }

    /** Move the cheapest urgent transaction to the floating heap, or drop it if stale. */
    method Demote(remotes: set<Tx>)
      requires Valid() && urgent != []
      modifies this`urgent, this`floating, this`stales
      ensures Valid() && |urgent| == |old(urgent)| - 1 && |floating| <= |old(floating)| + 1
      ensures Entries() == old(Entries()) || exists tx :: tx !in remotes && old(Entries()) == Entries() + multiset{tx}
    {
      hide Heap.IsHeap, PriceLess, Less;
      var tx;
      tx, urgent := TakeCheapest(urgent, baseFee);
      if tx !in remotes {
        stales := stales - 1;
        assert old(Entries()) == Entries() + multiset{tx};
      } else {
        floating := PushOne(floating, tx, None);
        assert old(Entries()) == Entries();
      }
    }

    method PopFloating() returns (tx: Tx)
      requires Valid() && floating != []
      modifies this`floating
      ensures Valid() && |floating| == |old(floating)| - 1 && old(Entries()) == Entries() + multiset{tx}
      ensures forall x :: x in floating ==> !PriceLess(None, x, tx)
    {
      hide Heap.IsHeap, PriceLess, Less;
      tx, floating := TakeCheapest(floating, None);
      assert old(Entries()) == Entries() + multiset{tx};
    }

    /** Pop the cheapest transactions until `slots` slots are freed. `cuts` are the heaps each of them left behind. */
    method Discard(slots: int, force: bool, remotes: set<Tx>) returns (drop: seq<Tx>, ok: bool, ghost cuts: seq<Heaps>)
      requires Valid() && Tracks(remotes)
      modifies this
      ensures Valid() && baseFee == old(baseFee)
      // only live remotes are dropped, and all others are still tracked
      ensures forall tx :: tx in drop ==> tx in remotes
      ensures Tracks(remotes - set tx | tx in drop)
      // refused exactly when the live entries could not free enough and nothing forces it
      ensures ok <==> force || slots <= old(LiveSlots(Entries(), remotes))
      // unforced, success means that enough slots were freed, and no more are dropped than that takes
      ensures ok && !force ==> slots <= SlotSum(drop)
      ensures Needed(drop, slots)
      // refusal happens only unforced, when all live remotes together are too few, and drops nothing
      ensures !ok ==> !force && drop == [] && SlotsOf(remotes) < slots
      // each was the cheapest in the floating heap when it left, which held its share of all that was live
      ensures |cuts| == |drop| && forall i :: 0 <= i < |drop| ==> CheapestOut(drop, i, cuts[i], old(Entries()), remotes)
    {
      hide LiveSlots, Heap.IsHeap, PriceLess, SlotSum, CheapestOut, LiveLeft, Needed;
      var need := slots;
      drop, cuts := [], [];
      NoneFreed();
      NoneDropped(Entries(), remotes, slots);
      while need > 0
        invariant Valid() && baseFee == old(baseFee) && need == slots - SlotSum(drop)
        invariant SlotSum(drop) + LiveSlots(Entries(), remotes) == old(LiveSlots(Entries(), remotes))
        invariant forall tx :: tx in drop ==> tx in remotes
        invariant Needed(drop, slots)
        invariant LiveLeft(drop, Entries(), old(Entries()), remotes) && |cuts| == |drop|
        invariant forall i :: 0 <= i < |drop| ==> CheapestOut(drop, i, cuts[i], old(Entries()), remotes)
        decreases 2 * |urgent| + |floating|
      {
        ghost var before := Entries();
        if |urgent| * FLOATING_RATIO > |floating| * URGENT_RATIO {
          Demote(remotes);
          StaleGone(before, Entries(), remotes);
          LiveLeftSame(drop, before, Entries(), old(Entries()), remotes);
        } else if |floating| == 0 {
          break;
        } else {
          var tx := PopFloating();
          LiveWith(Entries(), tx, before, remotes);
          if tx !in remotes {
            stales := stales - 1;
            LiveLeftSame(drop, before, Entries(), old(Entries()), remotes);
          } else {
            FreedMore(drop, tx);
            NeededMore(drop, tx, slots);
            CutNext(drop, tx, Heaps(urgent, floating), before, old(Entries()), remotes, cuts);
            drop, cuts := drop + [tx], cuts + [Heaps(urgent, floating)];
            need := need - NumSlots(tx);
          }
        }
      }
      StillTracked(drop, Entries(), old(Entries()), remotes);
      if need > 0 { NoneLive(Entries(), remotes); }
      if need > 0 && !force {
        SlotsCovered(drop, remotes);
        urgent := PushAll(urgent, drop, baseFee);
        NoneFreed();
        NoneDropped(Entries(), remotes, slots);
        return [], false, [];
      }
      ok := true;
    }

    static method PushAll(h: seq<Tx>, txs: seq<Tx>, fee: Option<nat>) returns (r: seq<Tx>)
      requires Heap.IsHeap(h, Less(fee))
      ensures Heap.IsHeap(r, Less(fee)) && multiset(r) == multiset(h) + multiset(txs)
    {
      r := h;
      LessIsOrder(fee);
      for i := 0 to |txs|
        invariant Heap.IsHeap(r, Less(fee)) && multiset(r) == multiset(h) + multiset(txs[..i])
      {
        r := Heap.Push(r, txs[i], Less(fee));
        assert txs[..i + 1] == txs[..i] + [txs[i]];
      }
      assert txs[..|txs|] == txs;
    }

    method SetBaseFee(fee: nat, remotes: set<Tx>)
      modifies this
      ensures Valid() && Tracks(remotes) && baseFee == Some(fee)
      ensures multiset(urgent) + multiset(floating) == multiset(remotes) && |floating| == |remotes| / 5
      ensures forall f, u :: f in floating && u in urgent ==> !Beneath(Rank(baseFee, u), Rank(baseFee, f))
    {
      baseFee := Some(fee);
      Reheap(remotes);
    }
  }

  /** The two heaps at some moment. */
  datatype Heaps = Heaps(urgent: seq<Tx>, floating: seq<Tx>) {
    ghost function Entries(): multiset<Tx> { multiset(urgent) + multiset(floating) }
  }

  /** What is live in the heaps now is what was live at the start but for what was dropped. */
  ghost predicate LiveLeft(drop: seq<Tx>, now: multiset<Tx>, start: multiset<Tx>, live: set<Tx>) {
    forall tx :: tx in live ==> now[tx] + multiset(drop)[tx] == start[tx]
  }

  /** When drop[i] left, nothing in the floating heap was cheaper, the urgent heap was at most four times as large, and
      the two heaps held all that was live at the start but for what was dropped so far. */
  ghost predicate CheapestOut(drop: seq<Tx>, i: nat, cut: Heaps, start: multiset<Tx>, live: set<Tx>)
    requires i < |drop|
  {
    && (forall x :: x in cut.floating ==> !Beneath(Rank(None, x), Rank(None, drop[i])))
    && |cut.urgent| <= URGENT_RATIO * (|cut.floating| + 1)
    && LiveLeft(drop[..i + 1], cut.Entries(), start, live)
  }

  lemma NoneDropped(start: multiset<Tx>, live: set<Tx>, slots: int)
    ensures LiveLeft([], start, start, live) && Needed([], slots)
  {
  }

  /** Without the last one dropped the slots would not have been enough. */
  ghost predicate Needed(drop: seq<Tx>, slots: int) { drop != [] ==> SlotSum(drop[..|drop| - 1]) < slots }

  lemma NeededMore(drop: seq<Tx>, tx: Tx, slots: int)
    requires SlotSum(drop) < slots
    ensures Needed(drop + [tx], slots)
  {
    assert (drop + [tx])[..|drop|] == drop;
  }

  lemma StillTracked(drop: seq<Tx>, now: multiset<Tx>, start: multiset<Tx>, live: set<Tx>)
    requires LiveLeft(drop, now, start, live)
    ensures forall tx :: tx in live && tx in start ==> tx in drop || tx in now
  {
    forall tx | tx in live && tx in start && tx !in now
      ensures tx in drop
    {
      assert tx in multiset(drop);
    }
  }

  lemma LiveLeftSame(drop: seq<Tx>, before: multiset<Tx>, now: multiset<Tx>, start: multiset<Tx>, live: set<Tx>)
    requires LiveLeft(drop, before, start, live)
    requires now == before || exists tx :: tx !in live && before == now + multiset{tx}
    ensures LiveLeft(drop, now, start, live)
  {
  }

  /** One more dropped. */
  lemma CutNext(drop: seq<Tx>, tx: Tx, cut: Heaps, before: multiset<Tx>, start: multiset<Tx>, live: set<Tx>,
                cuts: seq<Heaps>)
    requires LiveLeft(drop, before, start, live) && before == cut.Entries() + multiset{tx} && |cuts| == |drop|
    requires forall x :: x in cut.floating ==> !PriceLess(None, x, tx)
    requires |cut.urgent| <= URGENT_RATIO * (|cut.floating| + 1)
    requires forall i :: 0 <= i < |drop| ==> CheapestOut(drop, i, cuts[i], start, live)
    ensures LiveLeft(drop + [tx], cut.Entries(), start, live)
    ensures forall i :: 0 <= i <= |drop| ==> CheapestOut(drop + [tx], i, (cuts + [cut])[i], start, live)
  {
    var more := drop + [tx];
    assert more[..|drop| + 1] == more;
    forall x | x in cut.floating
      ensures !Beneath(Rank(None, x), Rank(None, tx))
    {
      ByRank(None, x, tx);
    }
    forall i | 0 <= i < |drop|
      ensures CheapestOut(more, i, (cuts + [cut])[i], start, live)
    {
      assert more[..i + 1] == drop[..i + 1];
    }
  }

  lemma NoneFreed()
    ensures SlotSum([]) == 0
  {
  }

  lemma FreedMore(drop: seq<Tx>, tx: Tx)
    ensures SlotSum(drop + [tx]) == SlotSum(drop) + NumSlots(tx)
  {
    assert (drop + [tx])[..|drop|] == drop;
  }

  /** Losing at most a stale entry changes neither the worth of the heaps nor what is tracked. */
  lemma StaleGone(before: multiset<Tx>, after: multiset<Tx>, live: set<Tx>)
    requires after == before || exists tx :: tx !in live && before == after + multiset{tx}
    ensures LiveSlots(after, live) == LiveSlots(before, live)
    ensures forall tx :: tx in live && tx in before ==> tx in after
  {
    if after != before {
      var tx :| tx !in live && before == after + multiset{tx};
      LiveWith(after, tx, before, live);
    }
  }

  lemma Rebuilt(urgent: seq<Tx>, floating: seq<Tx>, worst: seq<Tx>, remotes: set<Tx>, fee: Option<nat>)
    requires multiset(floating) == multiset(worst) && multiset(urgent) + multiset(worst) == multiset(remotes)
    requires forall f, u :: f in multiset(worst) && u in multiset(urgent) ==> !PriceLess(fee, u, f)
    ensures forall f, u :: f in floating && u in urgent ==> !PriceLess(fee, u, f)
    ensures forall tx :: tx in remotes ==> tx in multiset(urgent) + multiset(floating)
  {
    forall f, u | f in floating && u in urgent
      ensures !PriceLess(fee, u, f)
    {
      assert f in multiset(floating) && u in multiset(urgent);
    }
    forall tx | tx in remotes
      ensures tx in multiset(urgent) + multiset(floating)
    {
      assert tx in multiset(remotes);
    }
  }

  /** At the top of a heap without a stale root, the root decides for all live entries. */
  lemma CheapestDecides(h: seq<Tx>, fee: Option<nat>, tx: Tx, live: set<Tx>)
    requires Heap.IsHeap(h, Less(fee)) && (h != [] ==> h[0] in live)
    ensures (h == [] || Cmp(fee, h[0], tx) >= 0) <==>
              forall x :: x in live && x in multiset(h) ==> !Beneath(Rank(fee, x), Rank(fee, tx))
  {
    hide Cmp, Rank, Beneath;
    LessIsOrder(fee);
    assert h != [] ==> h[0] in multiset(h);
    if h != [] { ByRank(fee, h[0], tx); }
    if h != [] && Cmp(fee, h[0], tx) >= 0 {
      forall x | x in multiset(h)
        ensures !Beneath(Rank(fee, x), Rank(fee, tx))
      {
        var i :| 0 <= i < |h| && h[i] == x;
        Heap.RootIsLeast(h, Less(fee), i);
        CmpTransitive(fee, x, h[0], tx);
        ByRank(fee, x, tx);
      }
    }
  }

  lemma NoneLive(entries: multiset<Tx>, live: set<Tx>)
    ensures entries == multiset{} ==> LiveSlots(entries, live) == 0
  {
  }

  /** Entries that differ only in stale ones are worth the same. */
  lemma {:induction false} LiveSides(a: multiset<Tx>, a': multiset<Tx>, b: multiset<Tx>, live: set<Tx>)
    requires a' <= a && forall tx :: tx in live ==> a'[tx] == a[tx]
    ensures LiveSlots(a + b, live) == LiveSlots(a' + b, live) && LiveSlots(b + a, live) == LiveSlots(b + a', live)
    decreases |a|
  {
    assert a + b == b + a && a' + b == b + a';
    if a != a' {
      var tx :| tx in a && a'[tx] < a[tx];
      var less := a - multiset{tx};
      LiveWithout(a + b, tx, live);
      assert a + b - multiset{tx} == less + b;
      LiveSides(less, a', b, live);
    }
  }

  /** With a base fee of ten, a newcomer that leaves the miner five beats one that bids more but leaves one. */
  method BetterTipIsNotUnderpriced() returns (r: bool)
    ensures !r
  {
    var cheap := Tx(DynamicFee, true, 1, 0, 21000, 20, 1, 0, 0, 100, 21000, 0);
    var tx := Tx(DynamicFee, true, 2, 0, 21000, 15, 5, 0, 0, 100, 21000, 0);
    var list := new TxPricedList();
    list.SetBaseFee(10, {cheap});
    assert list.floating == [] && list.Tracked(cheap);
    r := list.Underpriced(tx, {cheap});
  }
}
