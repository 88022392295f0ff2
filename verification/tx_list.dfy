/** txList: the transactions of one account, kept by nonce, with cached caps on cost and gas. `List` is the
    value of such a list and says what each operation leaves; the class TxList is proved to compute it. */
module TxLists {
  import opened Transactions
  import opened SortedMap

  predicate Unpayable(tx: Tx, costLimit: int, gasLimit: nat) { tx.gas > gasLimit || tx.cost > costLimit }

  /** The transactions over either limit. */
  function Dropped(m: Items, costLimit: int, gasLimit: nat): Items {
    map n | n in m && Unpayable(m[n], costLimit, gasLimit) :: m[n]
  }

  /** What is dropped costs more than the limit or wants more gas, and nothing else does. */
  lemma DroppedMeans(m: Items, costLimit: int, gasLimit: nat)
    ensures var out := Dropped(m, costLimit, gasLimit);
            && (forall n :: n in out ==> n in m && (out[n].cost > costLimit || out[n].gas > gasLimit))
            && (forall n :: n in m && n !in out ==> m[n].cost <= costLimit && m[n].gas <= gasLimit)
  {
  }

  /** What stays when everything over a limit goes and, in a strict list, everything after the first of them. */
  function Payable(strict: bool, m: Items, costLimit: int, gasLimit: nat): Items {
    var out := Dropped(m, costLimit, gasLimit);
    if strict && out != map[] then Below(m, Least(out.Keys)) else m - out.Keys
  }

  /** What could be paid for but comes after something that cannot. */
  function Invalidated(m: Items, costLimit: int, gasLimit: nat): Items {
    m - Dropped(m, costLimit, gasLimit).Keys - Payable(true, m, costLimit, gasLimit).Keys
  }

  /** tx beats a holder of its nonce in both prices, by the bump in percent. */
  predicate Outbids(tx: Tx, held: Tx, priceBump: nat) {
    && held.feeCap < tx.feeCap && held.tipCap < tx.tipCap
    && tx.feeCap >= (100 + priceBump) * held.feeCap / 100 && tx.tipCap >= (100 + priceBump) * held.tipCap / 100
  }

  /** In whole numbers: a hundred times one more than the bid exceeds the held price raised by the bump. */
  lemma OutbidsMeans(tx: Tx, held: Tx, priceBump: nat)
    ensures Outbids(tx, held, priceBump) <==>
              && held.feeCap < tx.feeCap && (100 + priceBump) * held.feeCap < 100 * (tx.feeCap + 1)
              && held.tipCap < tx.tipCap && (100 + priceBump) * held.tipCap < 100 * (tx.tipCap + 1)
  {
    Percent((100 + priceBump) * held.feeCap, tx.feeCap);
    Percent((100 + priceBump) * held.tipCap, tx.tipCap);
  }

  lemma Percent(x: nat, y: nat)
    ensures y >= x / 100 <==> x < 100 * (y + 1)
  {
  }

  /** Whether tx may enter: its nonce is free or it outbids the holder. */
  predicate Yields(m: Items, tx: Tx, priceBump: nat) { tx.nonce in m ==> Outbids(tx, m[tx.nonce], priceBump) }

  lemma NotSelf(m: Items, tx: Tx, priceBump: nat)
    requires Yields(m, tx, priceBump) && tx.nonce in m
    ensures m[tx.nonce] != tx
  {
  }

  datatype List = List(strict: bool, items: Items, costcap: int, gascap: nat) {

    /** The caps bound every member. */
    ghost predicate Valid() {
      Keyed(items) && forall n :: n in items ==> items[n].cost <= costcap && items[n].gas <= gascap
    }

    predicate Accepts(tx: Tx, priceBump: nat) { Yields(items, tx, priceBump) }

    function Add(tx: Tx): List {
      List(strict, items[tx.nonce := tx], if costcap < tx.cost then tx.cost else costcap,
           if gascap < tx.gas then tx.gas else gascap)
    }

    function Forward(threshold: nat): List { this.(items := AtLeast(items, threshold)) }

    /** The caps are lowered to the limits only when one of them is exceeded. */
    function Filter(costLimit: int, gasLimit: nat): List {
      if costcap <= costLimit && gascap <= gasLimit then this
      else List(strict, Payable(strict, items, costLimit, gasLimit), costLimit, gasLimit)
    }

    function Cap(threshold: nat): List { this.(items := Lowest(items, threshold)) }

    function Remove(nonce: nat): List {
      this.(items := if strict && nonce in items then Below(items, nonce) else items - {nonce})
    }

    function Ready(start: nat): List { this.(items := items - Readies(items, start).Keys) }
  }

  const EmptyStrict := List(true, map[], 0, 0)
  const EmptyLoose := List(false, map[], 0, 0)

  /** Nothing that stays is over a limit. */
  lemma PayableStays(strict: bool, m: Items, costLimit: int, gasLimit: nat)
    ensures var kept := Payable(strict, m, costLimit, gasLimit);
            forall n :: n in kept ==> n in m && kept[n] == m[n] && !Unpayable(m[n], costLimit, gasLimit)
  {
    var out := Dropped(m, costLimit, gasLimit);
    var kept := Payable(strict, m, costLimit, gasLimit);
    forall n | n in kept
      ensures n in m && kept[n] == m[n] && !Unpayable(m[n], costLimit, gasLimit)
    {
      assert n !in out;
    }
  }

  // ----- the caps -----

  ghost predicate Within(a: Items, b: Items) { forall n :: n in a ==> n in b && a[n] == b[n] }

  lemma PartValid(l: List, m: Items)
    requires l.Valid() && Within(m, l.items)
    ensures l.(items := m).Valid()
  {
  }

  lemma AddValid(l: List, tx: Tx)
    requires l.Valid()
    ensures l.Add(tx).Valid()
  {
  }

  lemma FilterValid(l: List, costLimit: int, gasLimit: nat)
    requires l.Valid()
    ensures l.Filter(costLimit, gasLimit).Valid() && Within(l.Filter(costLimit, gasLimit).items, l.items)
  {
    PayableStays(l.strict, l.items, costLimit, gasLimit);
  }

  lemma CapWithin(m: Items, k: nat)
    ensures Within(Lowest(m, k), m)
  {
    LowestAreBelow(m, k);
  }

  /** The caps bound every member after every operation. */
  lemma CapsAlwaysBound(l: List, tx: Tx, k: nat, costLimit: int, gasLimit: nat)
    requires l.Valid()
    ensures l.Add(tx).Valid() && l.Forward(k).Valid() && l.Cap(k).Valid() && l.Remove(k).Valid() && l.Ready(k).Valid()
    ensures l.Filter(costLimit, gasLimit).Valid()
  {
    AddValid(l, tx);
    FilterValid(l, costLimit, gasLimit);
    CapWithin(l.items, k);
    PartValid(l, Lowest(l.items, k));
    PartValid(l, AtLeast(l.items, k));
    PartValid(l, l.Remove(k).items);
    PartValid(l, l.items - Readies(l.items, k).Keys);
  }

  /** The short circuit of Filter changes no result: it keeps exactly the payable part. */
  lemma FilterIgnoresCaps(l: List, costLimit: int, gasLimit: nat)
    requires l.Valid()
    ensures l.Filter(costLimit, gasLimit).items == Payable(l.strict, l.items, costLimit, gasLimit)
  {
    if l.costcap <= costLimit && l.gascap <= gasLimit {
      assert Dropped(l.items, costLimit, gasLimit) == map[];
    }
  }

  // ----- gap-free strict lists -----

  function Max(a: nat, b: nat): nat { if a < b then b else a }

  function Min(a: nat, b: nat): nat { if a < b then a else b }

  /** Where a gap-free list is cut by its first unpayable transaction. */
  lemma PayableRange(m: Items, lo: nat, hi: nat, costLimit: int, gasLimit: nat) returns (e: nat)
    requires lo <= hi && Range(m, lo, hi)
    ensures lo <= e <= hi && Range(Payable(true, m, costLimit, gasLimit), lo, e)
    ensures e == hi <==> Dropped(m, costLimit, gasLimit) == map[]
    ensures e < hi ==> Unpayable(m[e], costLimit, gasLimit)
  {
    var out := Dropped(m, costLimit, gasLimit);
    e := if out == map[] then hi else Least(out.Keys);
  }

  /** On a strict list without gaps every removing operation leaves a list without gaps. */
  lemma StaysGapFree(l: List, lo: nat, hi: nat, k: nat, costLimit: int, gasLimit: nat)
    requires l.Valid() && l.strict && lo <= hi && Range(l.items, lo, hi)
    ensures Range(l.Forward(k).items, Max(lo, k), hi)
    ensures Range(l.Remove(k).items, lo, if lo <= k < hi then k else hi)
    ensures Range(l.Cap(k).items, lo, Min(hi, lo + k))
    ensures exists e :: lo <= e <= hi && Range(l.Filter(costLimit, gasLimit).items, lo, e)
  {
    hide Range, Lowest, Payable, Dropped, List.Filter, AtLeast, Below;
    ForwardRange(l.items, lo, hi, k);
    RemoveRange(l.items, lo, hi, k);
    CapRange(l.items, lo, hi, k);
    FilterIgnoresCaps(l, costLimit, gasLimit);
    var e := PayableRange(l.items, lo, hi, costLimit, gasLimit);
  }

  lemma ForwardRange(m: Items, lo: nat, hi: nat, k: nat)
    requires Range(m, lo, hi)
    ensures Range(AtLeast(m, k), Max(lo, k), hi)
  {
  }

  lemma RemoveRange(m: Items, lo: nat, hi: nat, k: nat)
    requires Range(m, lo, hi)
    ensures lo <= k < hi ==> k in m && Range(Below(m, k), lo, k)
    ensures !(lo <= k < hi) ==> k !in m && Range(m - {k}, lo, hi)
  {
  }

  lemma {:induction false} RangeSize(m: Items, lo: nat, hi: nat)
    requires lo <= hi && Range(m, lo, hi)
    ensures |m| == hi - lo
    decreases hi
  {
    if lo == hi {
      assert m == map[];
    } else {
      assert hi - 1 in m && (m - {hi - 1}).Keys == m.Keys - {hi - 1};
      RangeSize(m - {hi - 1}, lo, hi - 1);
    }
  }

  lemma {:induction false} CapRange(m: Items, lo: nat, hi: nat, k: nat)
    requires lo <= hi && Range(m, lo, hi)
    ensures Range(Lowest(m, k), lo, Min(hi, lo + k))
    decreases hi
  {
    RangeSize(m, lo, hi);
    if k < |m| {
      var g := Greatest(m.Keys);
      assert hi - 1 in m && g in m;
      assert g == hi - 1;
      var rest := m - {g};
      assert Range(rest, lo, hi - 1);
      CapRange(rest, lo, hi - 1, k);
      assert Lowest(m, k) == Lowest(rest, k);
    }
  }

  // ----- the list object -----

  class TxList {
    const strict: bool
    const txs: TxSortedMap
    var costcap: int
    var gascap: nat

    ghost function Model(): List
      reads this, txs
    {
      List(strict, txs.items, costcap, gascap)
    }

    ghost predicate Valid()
      reads this, txs
    {
      txs.Valid() && Model().Valid()
    }

    constructor (strict: bool)
      ensures Valid() && fresh(txs) && Model() == if strict then EmptyStrict else EmptyLoose
    {
      this.strict := strict;
      txs := new TxSortedMap();
      costcap, gascap := 0, 0;
    }

    method Add(tx: Tx, priceBump: nat) returns (inserted: bool, prev: Option<Tx>)
      requires Valid()
      modifies this, txs
      ensures Valid() && inserted == old(Model()).Accepts(tx, priceBump)
      ensures Model() == if inserted then old(Model()).Add(tx) else old(Model())
      ensures prev == if inserted && tx.nonce in old(txs.items) then Some(old(txs.items)[tx.nonce]) else None
    {
      prev := txs.Get(tx.nonce);
      if prev.Some? {
        var held := prev.value;
        if held.feeCap >= tx.feeCap || held.tipCap >= tx.tipCap {
          return false, None;
        }
        var thresholdFeeCap := (100 + priceBump) * held.feeCap / 100;
        var thresholdTip := (100 + priceBump) * held.tipCap / 100;
        if tx.feeCap < thresholdFeeCap || tx.tipCap < thresholdTip {
          return false, None;
        }
      }
      txs.Put(tx);
      var cost := tx.cost;
      if costcap < cost { costcap := cost; }
      if gascap < tx.gas { gascap := tx.gas; }
      inserted := true;
    }

    method Forward(threshold: nat) returns (removed: seq<Tx>)
      requires Valid()
      modifies txs
      ensures Valid() && Model() == old(Model()).Forward(threshold)
      ensures removed == Flat(Below(old(txs.items), threshold))
    {
      removed := txs.Forward(threshold);
    }

    method Filter(costLimit: int, gasLimit: nat) returns (removed: Items, invalids: Items)
      requires Valid()
      modifies this, txs
      ensures Valid() && Model() == old(Model()).Filter(costLimit, gasLimit)
      ensures removed == Dropped(old(txs.items), costLimit, gasLimit)
      ensures invalids == old(txs.items) - removed.Keys - txs.items.Keys
    {
      FilterIgnoresCaps(Model(), costLimit, gasLimit);
      FilterValid(Model(), costLimit, gasLimit);
      removed, invalids := map[], map[];
      if costcap > costLimit || gascap > gasLimit {
        costcap, gascap := costLimit, gasLimit;
        removed, invalids := FilterOut(costLimit, gasLimit);
      }
    }

    /** The part of Filter behind the short circuit. */
    method FilterOut(costLimit: int, gasLimit: nat) returns (removed: Items, invalids: Items)
      requires txs.Valid()
      modifies txs
      ensures txs.Valid() && txs.items == Payable(strict, old(txs.items), costLimit, gasLimit)
      ensures removed == Dropped(old(txs.items), costLimit, gasLimit)
      ensures invalids == old(txs.items) - removed.Keys - txs.items.Keys
    {
      hide Reject, Select, Dropped, Payable, Below;
      invalids := map[];
      var over := (tx: Tx) => Unpayable(tx, costLimit, gasLimit);
      OverLimit(txs.items, costLimit, gasLimit, over);
      removed := txs.Filter(over);
      if removed != map[] {
        if strict {
          var lowest := LowestNonce(removed);
          var late := (tx: Tx) => tx.nonce > lowest;
          StrictCut(old(txs.items), removed, lowest, late);
          invalids := txs.FilterItems(late);
        }
        txs.Reheap();
      }
    }

    method Cap(threshold: nat) returns (drops: seq<Tx>)
      requires Valid()
      modifies txs
      ensures Valid() && Model() == old(Model()).Cap(threshold)
      ensures drops == if |old(txs.items)| <= threshold then [] else Reversed(Flat(old(txs.items))[threshold..])
    {
      LowestAreBelow(txs.items, threshold);
      drops := txs.Cap(threshold);
    }

    method Remove(tx: Tx) returns (removed: bool, invalids: Items)
      requires Valid()
      modifies txs
      ensures Valid() && Model() == old(Model()).Remove(tx.nonce)
      ensures removed == (tx.nonce in old(txs.items))
      ensures invalids == if removed then old(txs.items) - {tx.nonce} - txs.items.Keys else map[]
    {
      hide Reject, Select, Below;
      var nonce := tx.nonce;
      var late := (x: Tx) => x.nonce > nonce;
      CutAt(txs.items, nonce, late);
      removed := txs.Remove(nonce);
      invalids := map[];
      if removed && strict {
        invalids := txs.Filter(late);
      }
    }

    method Ready(start: nat) returns (ready: seq<Tx>)
      requires Valid()
      modifies txs
      ensures Valid() && Model() == old(Model()).Ready(start)
      ensures ready == Flat(Readies(old(txs.items), start))
    {
      ready := txs.Ready(start);
    }
  }

  /** Filtering by the limits takes the dropped part, and all of it when the list is not strict or nothing is. */
  lemma OverLimit(m: Items, costLimit: int, gasLimit: nat, over: Tx -> bool)
    requires Keyed(m) && forall tx :: over(tx) == Unpayable(tx, costLimit, gasLimit)
    ensures var out := Dropped(m, costLimit, gasLimit);
            && Select(m, over) == out && Reject(m, over) == m - out.Keys && Within(out, m)
            && Payable(false, m, costLimit, gasLimit) == m - out.Keys && Keyed(m - out.Keys)
            && (out == map[] ==> Payable(true, m, costLimit, gasLimit) == m - out.Keys)
            && (out != map[] ==> Payable(true, m, costLimit, gasLimit) == Below(m, Least(out.Keys)))
            && m - out.Keys - (m - out.Keys).Keys == map[]
  {
  }

  /** Removing one nonce, and removing it with everything after it. */
  lemma CutAt(m: Items, nonce: nat, late: Tx -> bool)
    requires Keyed(m) && forall tx :: late(tx) == (tx.nonce > nonce)
    ensures var rest := m - {nonce};
            && Keyed(rest) && Within(rest, m) && Keyed(Below(m, nonce)) && Within(Below(m, nonce), m)
            && rest - rest.Keys == map[]
            && Reject(rest, late) == Below(m, nonce) && Select(rest, late) == rest - Below(m, nonce).Keys
  {
  }

  /** Rejecting everything after the lowest dropped nonce leaves what lies below it. */
  lemma StrictCut(m: Items, out: Items, lowest: nat, late: Tx -> bool)
    requires Keyed(m) && Within(out, m) && lowest in out && forall n :: n in out ==> lowest <= n
    requires forall tx :: late(tx) == (tx.nonce > lowest)
    ensures Reject(m - out.Keys, late) == Below(m, lowest)
    ensures Select(m - out.Keys, late) == m - out.Keys - Below(m, lowest).Keys
  {
  }

  /** The scan for the lowest removed nonce. */
  method LowestNonce(removed: Items) returns (lowest: nat)
    requires removed != map[]
    ensures lowest == Least(removed.Keys)
  {
    var todo := removed.Keys;
    lowest :| lowest in todo;
    while todo != {}
      invariant todo <= removed.Keys && lowest in removed
      invariant forall n :: n in removed && n !in todo ==> lowest <= n
      decreases |todo|
    {
      var n :| n in todo;
      todo := todo - {n};
      if n < lowest { lowest := n; }
    }
  }
}
