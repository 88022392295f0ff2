/** Transactions as the pool sees them, and nonce-indexed maps of them in nonce order. */
module Transactions {
  type Address = nat

  datatype Option<+T> = None | Some(value: T)

  datatype TxKind = Legacy | AccessList | DynamicFee

  /** A transaction. Hashes are injective identifiers, so a transaction stands for its own hash and a
      hash-keyed table of transactions is a set. `signed` is false when no sender can be recovered;
      `cost` is gas * gas price + value, which the pool only compares; `payload` stands for the fields the
      pool never reads. */
  datatype Tx = Tx(kind: TxKind, signed: bool, from: Address, nonce: nat, gas: nat, feeCap: nat, tipCap: nat,
                   value: int, cost: int, size: Size, intrinsicGas: nat, payload: nat)

  /** No encoding is empty. */
  type Size = n: nat | n > 0 witness 1

  const TX_SLOT_SIZE: nat := 32768
  const TX_MAX_SIZE: nat := 131072

  function NumSlots(tx: Tx): nat { (tx.size + TX_SLOT_SIZE - 1) / TX_SLOT_SIZE }

  /** The fewest slots of 32 kB that hold the transaction. */
  lemma FewestSlots(tx: Tx)
    ensures tx.size <= 32768 * NumSlots(tx) < tx.size + 32768 && 1 <= NumSlots(tx)
  {
  }

  lemma NoMore<T>(a: set<T>, b: set<T>)
    requires a <= b
    ensures |a| <= |b|
  {
    assert b == a + (b - a);
    assert |a + (b - a)| == |a| + |b - a|;
  }

  // ----- nonce -> transaction maps -----

  type Items = map<nat, Tx>

  /** Every transaction is filed under its own nonce. */
  ghost predicate Keyed(m: Items) { forall n :: n in m ==> m[n].nonce == n }

  ghost predicate Holds(m: Items, tx: Tx) { tx.nonce in m && m[tx.nonce] == tx }

  ghost predicate IsLeast(m: nat, s: set<nat>) { m in s && forall x :: x in s ==> m <= x }

  ghost predicate IsGreatest(m: nat, s: set<nat>) { m in s && forall x :: x in s ==> x <= m }

  lemma {:induction false} LeastExists(s: set<nat>)
    requires s != {}
    ensures exists m :: IsLeast(m, s)
  {
    var a :| a in s;
    var rest := s - {a};
    assert forall x :: x in s ==> x == a || x in rest;
    if rest == {} {
      assert IsLeast(a, s);
    } else {
      LeastExists(rest);
      var b :| IsLeast(b, rest);
      assert IsLeast(if a <= b then a else b, s);
    }
  }

  function Least(s: set<nat>): (m: nat)
    requires s != {}
    ensures m in s && forall x :: x in s ==> m <= x
  {
    LeastExists(s);
    var m :| m in s && forall x :: x in s ==> m <= x;
    m
  }

  lemma {:induction false} GreatestExists(s: set<nat>)
    requires s != {}
    ensures exists m :: IsGreatest(m, s)
  {
    var a :| a in s;
    var rest := s - {a};
    assert forall x :: x in s ==> x == a || x in rest;
    if rest == {} {
      assert IsGreatest(a, s);
    } else {
      GreatestExists(rest);
      var b :| IsGreatest(b, rest);
      assert IsGreatest(if a <= b then b else a, s);
    }
  }

  function Greatest(s: set<nat>): (m: nat)
    requires s != {}
    ensures m in s && forall x :: x in s ==> x <= m
  {
    GreatestExists(s);
    var m :| m in s && forall x :: x in s ==> x <= m;
    m
  }

  function AtLeast(m: Items, threshold: nat): Items { map n | n in m && threshold <= n :: m[n] }

  function Below(m: Items, threshold: nat): Items { map n | n in m && n < threshold :: m[n] }

  /** s lists the contents of m, each once, in rising nonce order. */
  ghost predicate Lines(s: seq<Tx>, m: Items) {
    && |s| == |m|
    && (forall i, j :: 0 <= i < j < |s| ==> s[i].nonce < s[j].nonce)
    && (forall tx :: tx in s <==> Holds(m, tx))
  }

  lemma LinesOne(tx: Tx, m: Items)
    requires m.Keys == {tx.nonce} && m[tx.nonce] == tx
    ensures Lines([tx], m)
  {
    forall x
      ensures x in [tx] <==> Holds(m, x)
    {
    }
  }

  lemma LinesConcat(s: seq<Tx>, a: Items, t: seq<Tx>, b: Items, m: Items)
    requires Keyed(a) && Keyed(b) && Lines(s, a) && Lines(t, b)
    requires forall x, y :: x in a && y in b ==> x < y
    requires a.Keys !! b.Keys && m.Keys == a.Keys + b.Keys
    requires forall n :: n in a ==> a[n] == m[n]
    requires forall n :: n in b ==> b[n] == m[n]
    ensures Lines(s + t, m)
  {
    assert |a.Keys + b.Keys| == |a.Keys| + |b.Keys|;
    var r := s + t;
    forall i, j | 0 <= i < j < |r|
      ensures r[i].nonce < r[j].nonce
    {
      if i < |s| <= j {
        assert r[i] in s && r[j] in t;
      }
    }
    forall tx
      ensures tx in r <==> Holds(m, tx)
    {
      assert tx in r <==> tx in s || tx in t;
    }
  }

  /** The transactions at nonces below and from t on, lined up one after the other. */
  lemma LinesSplit(s: seq<Tx>, t: seq<Tx>, m: Items, k: nat)
    requires Keyed(m) && Lines(s, Below(m, k)) && Lines(t, AtLeast(m, k))
    ensures Lines(s + t, m)
  {
    LinesConcat(s, Below(m, k), t, AtLeast(m, k), m);
  }

  lemma LinesCons(m: Items, n: nat, rest: seq<Tx>)
    requires Keyed(m) && n in m && (forall x :: x in m ==> n <= x) && Lines(rest, m - {n})
    ensures Lines([m[n]] + rest, m)
  {
    assert (m - {n}).Keys == m.Keys - {n};
    assert Below(m, n + 1).Keys == {n} && AtLeast(m, n + 1) == m - {n};
    LinesOne(m[n], Below(m, n + 1));
    LinesSplit([m[n]], rest, m, n + 1);
  }

  lemma {:induction false} LinesExist(m: Items) returns (s: seq<Tx>)
    requires Keyed(m)
    ensures Lines(s, m)
    decreases |m|
  {
    s := [];
    if m != map[] {
      var n := Least(m.Keys);
      assert (m - {n}).Keys == m.Keys - {n};
      var rest := LinesExist(m - {n});
      LinesCons(m, n, rest);
      s := [m[n]] + rest;
    }
  }

  lemma SomeLines(m: Items)
    requires Keyed(m)
    ensures exists s :: Lines(s, m)
  {
    var s := LinesExist(m);
  }

  /** There is only one such listing: what sorting by nonce must return. */
  lemma {:induction false} LinesUnique(s: seq<Tx>, t: seq<Tx>, m: Items)
    requires Keyed(m) && Lines(s, m) && Lines(t, m)
    ensures s == t
    decreases |m|
  {
    if m != map[] {
      var n := Least(m.Keys);
      LinesTail(s, m, n);
      LinesTail(t, m, n);
      LinesUnique(s[1..], t[1..], m - {n});
    }
  }

  lemma LinesTail(s: seq<Tx>, m: Items, n: nat)
    requires Keyed(m) && Lines(s, m) && n in m && forall x :: x in m ==> n <= x
    ensures s[0] == m[n] && |m - {n}| == |m| - 1 && Lines(s[1..], m - {n})
  {
    assert (m - {n}).Keys == m.Keys - {n};
    assert Holds(m, m[n]);
    assert s[0] == m[n] by { assert s[0] in s; assert Holds(m, s[0]); }
    forall tx
      ensures tx in s[1..] <==> Holds(m - {n}, tx)
    {
      assert tx in s[1..] ==> tx in s && tx != s[0];
      assert tx in s && tx != s[0] ==> tx in s[1..];
    }
  }

  /** The contents in rising nonce order. */
  ghost function Flat(m: Items): (s: seq<Tx>)
    requires Keyed(m)
    ensures |s| == |m| && Lines(s, m)
  {
    SomeLines(m);
    var s :| Lines(s, m);
    s
  }

  lemma FlatCons(m: Items, n: nat)
    requires Keyed(m) && n in m && forall x :: x in m ==> n <= x
    ensures |m - {n}| == |m| - 1 && Flat(m) == [m[n]] + Flat(m - {n})
  {
    LinesTail(Flat(m), m, n);
    LinesUnique(Flat(m)[1..], Flat(m - {n}), m - {n});
  }

  /** Dropping the highest nonce drops the last element. */
  lemma FlatDropLast(m: Items, g: nat)
    requires Keyed(m) && g in m && forall x :: x in m ==> x <= g
    ensures |m - {g}| == |m| - 1 && Flat(m) == Flat(m - {g}) + [m[g]]
  {
    assert (m - {g}).Keys == m.Keys - {g};
    assert AtLeast(m, g).Keys == {g} && Below(m, g) == m - {g};
    LinesOne(m[g], AtLeast(m, g));
    LinesSplit(Flat(m - {g}), [m[g]], m, g);
    LinesUnique(Flat(m), Flat(m - {g}) + [m[g]], m);
  }

  /** The k lowest nonces. */
  function Lowest(m: Items, k: nat): (r: Items)
    ensures |r| == if |m| <= k then |m| else k
    decreases |m|
  {
    if |m| <= k then m
    else
      var g := Greatest(m.Keys);
      assert (m - {g}).Keys == m.Keys - {g};
      Lowest(m - {g}, k)
  }

  lemma {:induction false} LowestAreBelow(m: Items, k: nat)
    ensures var r := Lowest(m, k);
            && (forall n :: n in r ==> n in m && r[n] == m[n])
            && (forall n, x :: n in r && x in m && x !in r ==> n < x)
    decreases |m|
  {
    if k < |m| {
      var g := Greatest(m.Keys);
      var rest := m - {g};
      assert rest.Keys == m.Keys - {g};
      LowestAreBelow(rest, k);
      var r := Lowest(rest, k);
      forall n, x | n in r && x in m && x !in r
        ensures n < x
      {
        assert n in rest.Keys && n in m.Keys && n != g;
        assert x == g || x in rest.Keys;
      }
    }
  }

  lemma {:induction false} FlatLowest(m: Items, k: nat)
    requires Keyed(m) && k <= |m|
    ensures Keyed(Lowest(m, k)) && Flat(Lowest(m, k)) == Flat(m)[..k]
    decreases |m|
  {
    if k < |m| {
      var g := Greatest(m.Keys);
      assert (m - {g}).Keys == m.Keys - {g};
      FlatDropLast(m, g);
      FlatLowest(m - {g}, k);
    }
  }

  /** The nonce after the unbroken run that starts at n. */
  function RunEnd(m: Items, n: nat): (e: nat)
    ensures n <= e && e !in m && forall i :: n <= i < e ==> i in m
    decreases set k | k in m && k >= n
  {
    if n in m then
      assert (set k | k in m && k >= n) == {n} + set k | k in m && k >= n + 1;
      RunEnd(m, n + 1)
    else n
  }

  lemma RunEndUnique(m: Items, n: nat, e: nat)
    requires n <= e && e !in m && forall i :: n <= i < e ==> i in m
    ensures RunEnd(m, n) == e
  {
    var r := RunEnd(m, n);
    assert r < e ==> r in m;
  }

  /** The nonces are exactly lo, lo+1, ..., hi-1. */
  ghost predicate Range(m: Items, lo: nat, hi: nat) {
    forall n: nat :: n in m <==> lo <= n < hi
  }

  // ----- what the operations of a sorted map leave behind -----

  function Reject(m: Items, drop: Tx -> bool): Items { map n | n in m && !drop(m[n]) :: m[n] }

  function Select(m: Items, drop: Tx -> bool): Items { map n | n in m && drop(m[n]) :: m[n] }

  /** The unbroken run from the lowest nonce, provided that nonce is not above start. */
  function Readies(m: Items, start: nat): Items {
    if m == map[] || Least(m.Keys) > start then map[] else Below(m, RunEnd(m, Least(m.Keys)))
  }

  lemma FlatDetermines(a: Items, b: Items)
    requires Keyed(a) && Keyed(b) && Flat(a) == Flat(b)
    ensures a == b
  {
    forall n: nat
      ensures n in a <==> n in b
      ensures n in a ==> a[n] == b[n]
    {
      assert n in a ==> Holds(a, a[n]);
      assert n in b ==> Holds(b, b[n]);
    }
  }

  lemma LastIsGreatest(m: Items)
    requires Keyed(m) && m != map[]
    ensures var tx := Flat(m)[|m| - 1]; Holds(m, tx) && forall n :: n in m ==> n <= tx.nonce
  {
    var g := Greatest(m.Keys);
    FlatDropLast(m, g);
  }

  /** Splitting at a threshold splits the flat order. */
  lemma FlatSplit(m: Items, t: nat)
    requires Keyed(m)
    ensures Flat(m) == Flat(Below(m, t)) + Flat(AtLeast(m, t))
    ensures |m| == |Below(m, t)| + |AtLeast(m, t)|
  {
    var a, b := Below(m, t), AtLeast(m, t);
    LinesSplit(Flat(a), Flat(b), m, t);
    LinesUnique(Flat(m), Flat(a) + Flat(b), m);
  }

  /** The transactions of a nonce-keyed map. */
  function Txs(m: Items): set<Tx> { set n | n in m :: m[n] }

  lemma {:induction false} TxsCount(m: Items)
    requires Keyed(m)
    ensures |Txs(m)| == |m|
    decreases |m|
  {
    if m != map[] {
      var n :| n in m;
      var rest := m - {n};
      assert rest.Keys == m.Keys - {n};
      TxsCount(rest);
      forall tx
        ensures tx in Txs(m) <==> tx in Txs(rest) || tx == m[n]
      {
        if tx in Txs(m) { var k :| k in m && m[k] == tx; assert k == n || k in rest; }
      }
      assert Txs(m) == Txs(rest) + {m[n]};
    }
  }

  lemma TxsStep(m: Items, todo: set<nat>, n: nat)
    requires n in todo && todo <= m.Keys
    ensures Txs(m - (todo - {n})) == Txs(m - todo) + {m[n]}
  {
    forall tx
      ensures tx in Txs(m - (todo - {n})) <==> tx == m[n] || tx in Txs(m - todo)
    {
      if tx in Txs(m - (todo - {n})) {
        var k :| k in m - (todo - {n}) && m[k] == tx;
        assert k == n || k in m - todo;
      }
      if tx == m[n] {
        assert n in m - (todo - {n});
      } else if tx in Txs(m - todo) {
        var k :| k in m - todo && m[k] == tx;
        assert k in m - (todo - {n});
      }
    }
  }

  // ----- slots -----

  /** The slots a set of transactions fills together. */
  ghost function SlotsOf(s: set<Tx>): nat {
    if s == {} then 0
    else
      var tx :| tx in s;
      NumSlots(tx) + SlotsOf(s - {tx})
  }

  lemma {:induction false} SlotsWithout(s: set<Tx>, tx: Tx)
    requires tx in s
    ensures SlotsOf(s) == NumSlots(tx) + SlotsOf(s - {tx})
  {
    var pick :| pick in s && SlotsOf(s) == NumSlots(pick) + SlotsOf(s - {pick});
    if pick != tx {
      SlotsWithout(s - {pick}, tx);
      SlotsWithout(s - {tx}, pick);
      assert s - {pick} - {tx} == s - {tx} - {pick};
    }
  }

  lemma {:induction false} SlotsApart(a: set<Tx>, b: set<Tx>)
    requires a <= b
    ensures SlotsOf(b) == SlotsOf(a) + SlotsOf(b - a)
    decreases |a|
  {
    if a == {} {
      assert b - a == b;
    } else {
      var tx :| tx in a;
      SlotsWithout(a, tx);
      SlotsWithout(b, tx);
      assert b - {tx} - (a - {tx}) == b - a;
      SlotsApart(a - {tx}, b - {tx});
    }
  }

  /** Every transaction takes a slot. */
  lemma {:induction false} SlotEach(s: set<Tx>)
    ensures |s| <= SlotsOf(s)
  {
    if s != {} {
      var tx :| tx in s;
      SlotsWithout(s, tx);
      FewestSlots(tx);
      SlotEach(s - {tx});
    }
  }

  lemma SlotsWith(s: set<Tx>, tx: Tx)
    requires tx !in s
    ensures SlotsOf(s + {tx}) == SlotsOf(s) + NumSlots(tx)
  {
    SlotsWithout(s + {tx}, tx);
    assert s + {tx} - {tx} == s;
  }
}
