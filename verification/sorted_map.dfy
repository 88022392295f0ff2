/** txSortedMap: a nonce -> transaction map with a heap of its nonces and a cache of its sorted contents.
    Every operation is stated on the plain map `items`; Valid() says that the heap and the cache agree with it. */
module SortedMap {
  import opened Transactions
  import Heap = BinaryHeap

  predicate NonceLess(a: nat, b: nat) { a < b }

  predicate TxByNonce(a: Tx, b: Tx) { a.nonce < b.nonce }

  lemma NonceOrders()
    ensures Heap.WeakOrder(NonceLess) && Heap.WeakOrder(TxByNonce)
  {
  }

  /** The index lists every key once. */
  ghost predicate Lists(index: seq<nat>, m: Items) {
    multiset(index) == multiset(m.Keys)
  }

  lemma ListsMember(index: seq<nat>, m: Items)
    requires Lists(index, m)
    ensures forall n :: n in index <==> n in m
  {
    forall n: nat
      ensures n in index <==> n in m
    {
      assert n in index <==> n in multiset(index);
      assert n in m <==> n in multiset(m.Keys);
    }
  }

  lemma HeadIsLeast(index: seq<nat>, m: Items)
    requires Heap.IsHeap(index, NonceLess) && Lists(index, m)
    ensures |index| == |m|
    ensures index != [] ==> index[0] in m && forall n :: n in m ==> index[0] <= n
  {
    ListsMember(index, m);
    assert |index| == |multiset(index)| && |m| == |multiset(m.Keys)|;
    if index != [] {
      forall n | n in m
        ensures index[0] <= n
      {
        var i :| 0 <= i < |index| && index[i] == n;
        Heap.RootIsLeast(index, NonceLess, i);
      }
    }
  }

  lemma ListsRemove(index: seq<nat>, was: seq<nat>, m: Items, n: nat)
    requires Lists(was, m) && multiset(index) == multiset(was) - multiset{n} && n in m
    ensures Lists(index, m - {n})
  {
    assert (m - {n}).Keys == m.Keys - {n};
  }

  lemma ListsAdd(index: seq<nat>, was: seq<nat>, m: Items, tx: Tx)
    requires Lists(was, m) && multiset(index) == multiset(was) + multiset{tx.nonce} && tx.nonce !in m
    ensures Lists(index, m[tx.nonce := tx])
  {
    assert m[tx.nonce := tx].Keys == m.Keys + {tx.nonce};
  }

  lemma WithoutMissing(m: Items, n: nat)
    requires n !in m
    ensures m - {n} == m
  {
  }

  lemma KeysList(keys: seq<nat>, m: Items)
    requires multiset(keys) == multiset(m.Keys)
    ensures Lists(keys, m)
  {
  }

  lemma ListsSame(index: seq<nat>, was: seq<nat>, m: Items, m': Items)
    requires Lists(was, m) && multiset(index) == multiset(was) && m.Keys == m'.Keys
    ensures Lists(index, m')
  {
  }

  /** The nonces of the contents in rising order. */
  ghost function Nonces(s: seq<Tx>): seq<nat> { seq(|s|, i requires 0 <= i < |s| => s[i].nonce) }

  lemma {:induction false} RisingLists(index: seq<nat>, keys: set<nat>)
    requires forall i, j :: 0 <= i < j < |index| ==> index[i] < index[j]
    requires forall n :: n in index <==> n in keys
    ensures multiset(index) == multiset(keys)
  {
    if index != [] {
      var x := index[0];
      var rest := index[1..];
      assert index == [x] + rest;
      assert x in keys;
      forall n: nat
        ensures n in rest <==> n in keys - {x}
      {
        assert n in index <==> n == x || n in rest;
      }
      RisingLists(rest, keys - {x});
      assert keys == keys - {x} + {x};
    }
  }

  lemma NoRepeats<T>(s: seq<T>, k: set<T>)
    requires multiset(s) == multiset(k)
    ensures |s| == |k| && forall i, j :: 0 <= i < j < |s| ==> s[i] != s[j]
  {
    assert |s| == |multiset(s)|;
    forall i, j | 0 <= i < j < |s|
      ensures s[i] != s[j]
    {
      assert s == s[..j] + [s[j]] + s[j + 1..];
      assert s[i] == s[..j][i];
      assert multiset(s)[s[j]] == multiset(s[..j])[s[j]] + 1 + multiset(s[j + 1..])[s[j]];
    }
  }

  /** Sorting the contents by nonce gives the flat order. */
  lemma SortedTxs(txs: seq<Tx>, m: Items)
    requires Keyed(m) && multiset(txs) == multiset(Txs(m))
    requires forall i, j :: 0 <= i < j < |txs| ==> !TxByNonce(txs[j], txs[i])
    ensures txs == Flat(m)
  {
    NoRepeats(txs, Txs(m));
    forall tx
      ensures tx in txs <==> Holds(m, tx)
    {
      assert tx in txs <==> tx in multiset(txs);
      assert tx in Txs(m) <==> Holds(m, tx);
    }
    assert |txs| == |m| by { TxsCount(m); }
    forall i, j | 0 <= i < j < |txs|
      ensures txs[i].nonce < txs[j].nonce
    {
      assert !TxByNonce(txs[j], txs[i]) && txs[i] in txs && txs[j] in txs;
    }
    LinesUnique(txs, Flat(m), m);
  }

  /** Sorting the index by nonce puts it in the flat order of the map. */
  lemma SortedIndex(index: seq<nat>, m: Items)
    requires Keyed(m) && Lists(index, m)
    requires forall i, j :: 0 <= i < j < |index| ==> index[i] <= index[j]
    ensures index == Nonces(Flat(m))
  {
    ListsMember(index, m);
    assert |index| == |multiset(index)| && |m| == |multiset(m.Keys)|;
    NoRepeats(index, m.Keys);
    var s := seq(|index|, i requires 0 <= i < |index| => assert index[i] in m; m[index[i]]);
    forall tx
      ensures tx in s <==> Holds(m, tx)
    {
      if Holds(m, tx) {
        var i :| 0 <= i < |index| && index[i] == tx.nonce;
        assert s[i] == tx;
      }
    }
    LinesUnique(s, Flat(m), m);
  }

  lemma LinesLists(s: seq<Tx>, m: Items)
    requires Keyed(m) && Lines(s, m)
    ensures Lists(Nonces(s), m)
  {
    var index := Nonces(s);
    forall n: nat
      ensures n in index <==> n in m
    {
      if n in m {
        assert Holds(m, m[n]);
        var i :| 0 <= i < |s| && s[i] == m[n];
        assert index[i] == n;
      }
      if n in index {
        var i :| 0 <= i < |s| && index[i] == n;
        assert s[i] in s;
      }
    }
    RisingLists(index, m.Keys);
  }

  lemma FlatLists(m: Items)
    requires Keyed(m)
    ensures Lists(Nonces(Flat(m)), m)
  {
    LinesLists(Flat(m), m);
  }

  function Reversed(s: seq<Tx>): (r: seq<Tx>)
    ensures |r| == |s|
  {
    if s == [] then [] else Reversed(s[1..]) + [s[0]]
  }

  lemma ReversedStep(s: seq<Tx>, k: nat)
    requires k < |s|
    ensures Reversed(s[k..]) == Reversed(s[k + 1..]) + [s[k]]
  {
    assert s[k..][1..] == s[k + 1..];
  }

  /** One turn of Cap's loop: the last of the remaining order is the highest nonce left. */
  lemma LastOf(kept: Items, flat: seq<Tx>, size: nat)
    requires Keyed(kept) && 0 < size <= |flat| && Flat(kept) == flat[..size]
    ensures Holds(kept, flat[size - 1])
    ensures Flat(kept - {flat[size - 1].nonce}) == flat[..size - 1]
  {
    LastIsGreatest(kept);
    FlatDropLast(kept, flat[size - 1].nonce);
    assert flat[..size - 1] == Flat(kept)[..size - 1];
  }

  lemma Capped(m: Items, kept: Items, index: seq<nat>, k: nat)
    requires Keyed(m) && Keyed(kept) && k <= |m| && Flat(kept) == Flat(m)[..k] && index == Nonces(Flat(m))
    ensures kept == Lowest(m, k) && Lists(index[..k], kept)
  {
    FlatLowest(m, k);
    FlatDetermines(kept, Lowest(m, k));
    assert index[..k] == Nonces(Flat(kept));
    FlatLists(kept);
  }

  /** Filtering under way: what was visited has been sorted into kept and removed. */
  ghost predicate Sieved(m: Items, drop: Tx -> bool, todo: set<nat>, kept: Items, removed: Items) {
    && todo <= m.Keys
    && (forall n :: n in kept <==> n in m && (n in todo || !drop(m[n])))
    && (forall n :: n in removed <==> n in m && n !in todo && drop(m[n]))
    && (forall n :: n in kept ==> kept[n] == m[n])
    && (forall n :: n in removed ==> removed[n] == m[n])
  }

  lemma SieveStart(m: Items, drop: Tx -> bool)
    ensures Sieved(m, drop, m.Keys, m, map[])
  {
  }

  lemma SieveStep(m: Items, drop: Tx -> bool, todo: set<nat>, kept: Items, removed: Items, n: nat)
    requires Sieved(m, drop, todo, kept, removed) && n in todo
    ensures n in kept && kept[n] == m[n]
    ensures drop(kept[n]) ==> Sieved(m, drop, todo - {n}, kept - {n}, removed[n := kept[n]])
    ensures !drop(kept[n]) ==> Sieved(m, drop, todo - {n}, kept, removed)
  {
  }

  lemma SieveEnd(m: Items, drop: Tx -> bool, kept: Items, removed: Items)
    requires Sieved(m, drop, {}, kept, removed)
    ensures kept == Reject(m, drop) && removed == Select(m, drop)
    ensures removed == map[] ==> kept == m
  {
    forall n | n in m && n !in kept
      ensures n in removed
    {
    }
    assert removed == map[] ==> kept.Keys == m.Keys;
  }

  lemma AtLeastAll(m: Items, lo: nat)
    requires forall n :: n in m ==> lo <= n
    ensures m == AtLeast(m, lo)
  {
  }

  lemma AtLeastNext(m: Items, next: nat)
    ensures AtLeast(m, next) - {next} == AtLeast(m, next + 1)
  {
  }

  lemma NoneReady(m: Items, start: nat)
    requires Keyed(m) && (m == map[] || Least(m.Keys) > start)
    ensures m - Readies(m, start).Keys == m && Flat(Readies(m, start)) == []
  {
  }

  /** What the loop of Ready has taken when it stops is the ready run. */
  lemma RunFound(m: Items, rest: Items, ready: seq<Tx>, start: nat, lo: nat, end: nat)
    requires Keyed(m) && lo in m && lo <= start && forall n :: n in m ==> lo <= n
    requires lo <= end && rest == AtLeast(m, end) && !(end in rest && forall n :: n in rest ==> end <= n)
    requires forall n :: lo <= n < end ==> n in m
    requires ready + Flat(rest) == Flat(m)
    ensures ready == Flat(Readies(m, start)) && rest == m - Readies(m, start).Keys
  {
    assert end !in m;
    RunEndUnique(m, lo, end);
    assert Readies(m, start) == Below(m, end);
    FlatSplit(m, end);
    assert ready == Flat(m)[..|ready|];
  }

  class TxSortedMap {
    var items: Items
    var index: seq<nat>
    var cache: Option<seq<Tx>>

    /** The heap is a min-heap over exactly the keys. */
    ghost predicate Indexed()
      reads this
    {
      Heap.IsHeap(index, NonceLess) && Lists(index, items)
    }

    ghost predicate Cached()
      reads this
      requires Keyed(items)
    {
      cache.Some? ==> cache.value == Flat(items)
    }

    ghost predicate Valid()
      reads this
    {
      Keyed(items) && Indexed() && Cached()
    }

    constructor ()
      ensures Valid() && items == map[]
    {
      items, index, cache := map[], [], None;
    }

    method Get(nonce: nat) returns (tx: Option<Tx>)
      ensures tx == if nonce in items then Some(items[nonce]) else None
    {
      tx := if nonce in items then Some(items[nonce]) else None;
    }

    method Put(tx: Tx)
      requires Valid()
      modifies this
      ensures Valid() && items == old(items)[tx.nonce := tx]
    {
      hide Lines, Lists, Heap.IsHeap, Heap.WeakOrder;
      NonceOrders();
      if tx.nonce !in items {
        index := Heap.Push(index, tx.nonce, NonceLess);
        ListsAdd(index, old(index), items, tx);
      } else {
        assert items[tx.nonce := tx].Keys == items.Keys;
        ListsSame(index, index, items, items[tx.nonce := tx]);
      }
      items, cache := items[tx.nonce := tx], None;
    }

    /** Take the lowest nonce off heap and map. */
    method PopLeast() returns (tx: Tx)
      requires Keyed(items) && Indexed() && index != []
      modifies this`items, this`index
      ensures Keyed(items) && Indexed()
      ensures var n := old(index)[0];
              && n in old(items) && tx == old(items)[n] && items == old(items) - {n}
              && (forall x :: x in old(items) ==> n <= x)
              && Flat(old(items)) == [tx] + Flat(items)
      ensures |items| == |old(items)| - 1
    {
      hide Lines, Lists, Heap.IsHeap, Heap.WeakOrder;
      NonceOrders();
      HeadIsLeast(index, items);
      var nonce;
      nonce, index := Heap.Pop(index, NonceLess);
      tx := items[nonce];
      FlatCons(items, nonce);
      ListsRemove(index, old(index), items, nonce);
      items := items - {nonce};
    }

    method Forward(threshold: nat) returns (removed: seq<Tx>)
      requires Valid()
      modifies this
      ensures Valid() && items == AtLeast(old(items), threshold)
      ensures removed == Flat(Below(old(items), threshold))
    {
      hide Lines, Lists, Heap.IsHeap, Heap.WeakOrder;
      removed := [];
      while index != [] && index[0] < threshold
        invariant Keyed(items) && Indexed() && cache == old(cache)
        invariant removed + Flat(items) == Flat(old(items))
        invariant forall n :: n in items ==> n in old(items) && items[n] == old(items)[n]
        invariant forall n :: n in old(items) && n !in items ==> n < threshold
        decreases |items|
      {
        var tx := PopLeast();
        removed := removed + [tx];
      }
      HeadIsLeast(index, items);
      assert items == AtLeast(old(items), threshold);
      FlatSplit(old(items), threshold);
      assert removed == Flat(old(items))[..|removed|];
      if cache.Some? {
        cache := Some(cache.value[|removed|..]);
      }
    }

    /** Remove by predicate without mending the heap: callers must reheap. Go visits the map in no fixed
        order, so what was removed is handed out keyed by nonce rather than in a sequence. */
    method FilterItems(drop: Tx -> bool) returns (removed: Items)
      requires Keyed(items) && Cached()
      modifies this`items, this`cache
      ensures Keyed(items) && Cached() && items == Reject(old(items), drop)
      ensures removed == Select(old(items), drop)
      ensures removed == map[] ==> items == old(items) && cache == old(cache)
    {
      hide Lines, Lists, Heap.IsHeap, Heap.WeakOrder, Sieved;
      removed := map[];
      var todo := items.Keys;
      SieveStart(items, drop);
      while todo != {}
        invariant Sieved(old(items), drop, todo, items, removed) && cache == old(cache)
        decreases |todo|
      {
        var n :| n in todo;
        SieveStep(old(items), drop, todo, items, removed, n);
        todo := todo - {n};
        if drop(items[n]) {
          removed := removed[n := items[n]];
          items := items - {n};
        }
      }
      SieveEnd(old(items), drop, items, removed);
      if removed != map[] {
        cache := None;
      }
    }

    method Reheap()
      requires Keyed(items)
      modifies this`index, this`cache
      ensures Valid()
    {
      hide Lines, Lists, Heap.IsHeap, Heap.WeakOrder;
      NonceOrders();
      var keys := Heap.ListOf(items.Keys);
      KeysList(keys, items);
      index := Heap.Init(keys, NonceLess);
      ListsSame(index, keys, items, items);
      cache := None;
    }

    method Filter(drop: Tx -> bool) returns (removed: Items)
      requires Valid()
      modifies this
      ensures Valid() && items == Reject(old(items), drop) && removed == Select(old(items), drop)
    {
      hide Lines, Lists, Heap.IsHeap, Heap.WeakOrder;
      removed := FilterItems(drop);
      if removed != map[] {
        Reheap();
      }
    }

    method Cap(threshold: nat) returns (drops: seq<Tx>)
      requires Valid()
      modifies this
      ensures Valid() && items == Lowest(old(items), threshold)
      ensures drops == if |old(items)| <= threshold then [] else Reversed(Flat(old(items))[threshold..])
    {
      hide Lines, Lists, Heap.IsHeap, Heap.WeakOrder;
      NonceOrders();
      if |items| <= threshold {
        return [];
      }
      index := Heap.Sort(index, NonceLess);
      ListsSame(index, old(index), items, items);
      SortedIndex(index, items);
      items, drops := DropHighest(items, index, threshold);
      ghost var lowest := index[..threshold];
      index := Heap.Init(index[..threshold], NonceLess);
      ListsSame(index, lowest, items, items);
      if cache.Some? {
        cache := Some(cache.value[..|cache.value| - |drops|]);
      }
    }

    /** The deleting loop of Cap, over the sorted index. */
    static method DropHighest(m: Items, index: seq<nat>, threshold: nat) returns (kept: Items, drops: seq<Tx>)
      requires Keyed(m) && index == Nonces(Flat(m)) && threshold <= |m|
      ensures Keyed(kept) && kept == Lowest(m, threshold) && Flat(kept) == Flat(m)[..threshold]
      ensures drops == Reversed(Flat(m)[threshold..]) && |drops| == |m| - threshold
      ensures Lists(index[..threshold], kept)
    {
      hide Reversed, Lowest, Lines, Lists, Heap.IsHeap, Heap.WeakOrder;
      kept, drops := m, [];
      var size := |m|;
      while size > threshold
        invariant threshold <= size <= |m| && Keyed(kept)
        invariant Flat(kept) == Flat(m)[..size]
        invariant drops == Reversed(Flat(m)[size..])
      {
        LastOf(kept, Flat(m), size);
        ReversedStep(Flat(m), size - 1);
        var nonce := index[size - 1];
        drops := drops + [kept[nonce]];
        kept := kept - {nonce};
        size := size - 1;
      }
      Capped(m, kept, index, threshold);
    }

    method Remove(nonce: nat) returns (found: bool)
      requires Valid()
      modifies this
      ensures Valid() && items == old(items) - {nonce}
      ensures found == (nonce in old(items))
    {
      hide Lines, Lists, Heap.IsHeap, Heap.WeakOrder;
      NonceOrders();
      found := nonce in items;
      if found {
        ListsMember(index, items);
        var i := IndexOf(index, nonce);
        index := Heap.Remove(index, i, NonceLess);
        ListsRemove(index, old(index), items, nonce);
        items := items - {nonce};
        cache := None;
      } else {
        WithoutMissing(items, nonce);
      }
    }

    static method IndexOf(index: seq<nat>, nonce: nat) returns (i: nat)
      requires nonce in index
      ensures i < |index| && index[i] == nonce
    {
      i := 0;
      while index[i] != nonce
        invariant i < |index| && nonce in index[i..]
        decreases |index| - i
      {
        i := i + 1;
      }
    }

    method Ready(start: nat) returns (ready: seq<Tx>)
      requires Valid()
      modifies this
      ensures Valid() && items == old(items) - Readies(old(items), start).Keys
      ensures ready == Flat(Readies(old(items), start))
    {
      hide Readies, RunEnd, AtLeast, Lines, Lists, Heap.IsHeap, Heap.WeakOrder;
      ready := [];
      HeadIsLeast(index, items);
      if |index| == 0 || index[0] > start {
        NoneReady(items, start);
        return;
      }
      ghost var lo := index[0];
      var next := index[0];
      AtLeastAll(items, lo);
      while |index| > 0 && index[0] == next
        invariant Keyed(items) && Indexed() && lo <= next
        invariant ready + Flat(items) == Flat(old(items))
        invariant items == AtLeast(old(items), next)
        invariant forall n :: lo <= n < next ==> n in old(items)
        invariant forall n :: n in items ==> n in old(items)
        decreases |items|
      {
        var tx := PopLeast();
        ready := ready + [tx];
        AtLeastNext(old(items), next);
        next := next + 1;
      }
      cache := None;
      HeadIsLeast(index, items);
      RunFound(old(items), items, ready, start, lo, next);
    }

    method Flatten() returns (txs: seq<Tx>)
      requires Valid()
      modifies this`cache
      ensures Valid() && txs == Flat(items)
    {
      hide Lines, Lists, Heap.IsHeap, Heap.WeakOrder;
      NonceOrders();
      if cache.None? {
        var list := Heap.ListOf(Txs(items));
        txs := Heap.Sort(list, TxByNonce);
        SortedTxs(txs, items);
        cache := Some(txs);
      }
      txs := cache.value;
    }

    method LastElement() returns (tx: Tx)
      requires Valid() && items != map[]
      modifies this`cache
      ensures Valid() && Holds(items, tx) && forall n :: n in items ==> n <= tx.nonce
    {
      hide Lines, Lists, Heap.IsHeap, Heap.WeakOrder;
      var txs := Flatten();
      LastIsGreatest(items);
      tx := txs[|txs| - 1];
    }
  }
}
