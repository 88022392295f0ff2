/** The binary heap of Go's container/heap, which every heap in the transaction pool runs on.
    A heap is a slice; `lt` is the Less of its element type. */
module BinaryHeap {

  /** Less as a strict weak order: what container/heap asks of its element type. */
  ghost predicate WeakOrder<T(!new)>(lt: (T, T) -> bool) {
    && (forall a, b :: lt(a, b) ==> !lt(b, a))
    && (forall a, b, c :: !lt(b, a) && !lt(c, b) ==> !lt(c, a))
  }

  /** Position i is not below its parent. */
  predicate InOrder<T>(h: seq<T>, lt: (T, T) -> bool, i: int)
    requires 0 < i < |h|
  {
    !lt(h[i], h[(i - 1) / 2])
  }

  ghost predicate IsHeap<T>(h: seq<T>, lt: (T, T) -> bool) {
    forall i :: 0 < i < |h| ==> InOrder(h, lt, i)
  }

  lemma {:induction false} RootIsLeast<T(!new)>(h: seq<T>, lt: (T, T) -> bool, i: nat)
    requires WeakOrder(lt) && IsHeap(h, lt) && i < |h|
    ensures !lt(h[i], h[0])
  {
    if i > 0 {
      RootIsLeast(h, lt, (i - 1) / 2);
      assert InOrder(h, lt, i);
    }
  }

  lemma SwapKeepsMultiset<T>(h: seq<T>, i: nat, j: nat)
    requires i < |h| && j < |h|
    ensures multiset(h[i := h[j]][j := h[i]]) == multiset(h)
  {
  }

  /** Every position whose parent is at `lo` or later is in order, except below `hole` and at `top`. */
  ghost predicate OrderedBut<T>(h: seq<T>, lt: (T, T) -> bool, lo: nat, hole: int, top: int) {
    forall k :: 0 < k < |h| && k != top && lo <= (k - 1) / 2 != hole ==> InOrder(h, lt, k)
  }

  /** The children of `hole` are not below its parent. */
  ghost predicate Bridged<T>(h: seq<T>, lt: (T, T) -> bool, lo: nat, hole: int) {
    forall k :: 0 < k < |h| && (k - 1) / 2 == hole > 0 && lo <= (hole - 1) / 2 ==> !lt(h[k], h[(hole - 1) / 2])
  }

  /** One turn of Up: swapping j with its parent moves the only possible disorder to the parent. */
  lemma UpStep<T(!new)>(h: seq<T>, j: nat, lt: (T, T) -> bool)
    requires WeakOrder(lt) && 0 < j < |h| && lt(h[j], h[(j - 1) / 2])
    requires OrderedBut(h, lt, 0, -1, j) && Bridged(h, lt, 0, j)
    ensures var i := (j - 1) / 2; var r := h[i := h[j]][j := h[i]];
            OrderedBut(r, lt, 0, -1, i) && Bridged(r, lt, 0, i) && multiset(r) == multiset(h)
  {
    var i := (j - 1) / 2;
    var r := h[i := h[j]][j := h[i]];
    SwapKeepsMultiset(h, i, j);
    forall k | 0 < k < |r| && k != i
      ensures InOrder(r, lt, k)
    {
      if k != j { assert InOrder(h, lt, k); }
    }
    forall k | 0 < k < |r| && (k - 1) / 2 == i > 0
      ensures !lt(r[k], r[(i - 1) / 2])
    {
      assert InOrder(h, lt, i);
      if k != j { assert InOrder(h, lt, k); }
    }
  }

  method Up<T(!new)>(h: seq<T>, j0: nat, lt: (T, T) -> bool) returns (r: seq<T>)
    requires WeakOrder(lt) && j0 < |h|
    requires OrderedBut(h, lt, 0, -1, j0) && Bridged(h, lt, 0, j0)
    ensures IsHeap(r, lt) && multiset(r) == multiset(h)
  {
    r := h;
    var j := j0;
    while j > 0 && lt(r[j], r[(j - 1) / 2])
      invariant j < |r| && multiset(r) == multiset(h)
      invariant OrderedBut(r, lt, 0, -1, j) && Bridged(r, lt, 0, j)
    {
      var i := (j - 1) / 2;
      UpStep(r, j, lt);
      r := r[i := r[j]][j := r[i]];
      j := i;
    }
    assert j > 0 ==> InOrder(r, lt, j);
  }

  /** One turn of Down: swapping i with its least child j moves the only possible disorder to j. */
  lemma DownStep<T(!new)>(h: seq<T>, i: nat, j: nat, lo: nat, lt: (T, T) -> bool, top: int)
    requires WeakOrder(lt) && lo <= i < j < |h| && (j - 1) / 2 == i && lt(h[j], h[i])
    requires top == i || top == -1
    requires 2 * i + 1 < |h| ==> !lt(h[2 * i + 1], h[j])
    requires 2 * i + 2 < |h| ==> !lt(h[2 * i + 2], h[j])
    requires OrderedBut(h, lt, lo, i, top) && Bridged(h, lt, lo, i)
    ensures var r := h[i := h[j]][j := h[i]];
            OrderedBut(r, lt, lo, j, -1) && Bridged(r, lt, lo, j) && multiset(r) == multiset(h)
  {
    var r := h[i := h[j]][j := h[i]];
    forall k | 0 < k < |r| && lo <= (k - 1) / 2 != j
      ensures InOrder(r, lt, k)
    {
      if k != i && (k - 1) / 2 != i {
        assert InOrder(h, lt, k);
      } else if k != i {
        assert k == 2 * i + 1 || k == 2 * i + 2;
      }
    }
    forall k | 0 < k < |r| && (k - 1) / 2 == j
      ensures !lt(r[k], r[i])
    {
      assert InOrder(h, lt, k);
    }
  }

  /** When no child of the hole is below it, only its own position can be out of order. */
  lemma DownStop<T>(h: seq<T>, i: nat, lo: nat, lt: (T, T) -> bool, top: int)
    requires OrderedBut(h, lt, lo, i, top)
    requires 2 * i + 1 < |h| ==> !lt(h[2 * i + 1], h[i])
    requires 2 * i + 2 < |h| ==> !lt(h[2 * i + 2], h[i])
    ensures OrderedBut(h, lt, lo, -1, top)
  {
    forall k | 0 < k < |h| && k != top && lo <= (k - 1) / 2
      ensures InOrder(h, lt, k)
    {
      if (k - 1) / 2 == i { assert k == 2 * i + 1 || k == 2 * i + 2; }
    }
  }

  /** Sift position i0 down; only parents from `lo` on are known to be in order. `moved` is false when
      nothing had to change, and then position i0 may still be below its own parent. */
  method Down<T(!new)>(h: seq<T>, i0: nat, ghost lo: nat, lt: (T, T) -> bool) returns (r: seq<T>, moved: bool)
    requires WeakOrder(lt) && lo <= i0
    requires OrderedBut(h, lt, lo, i0, i0) && Bridged(h, lt, lo, i0)
    ensures multiset(r) == multiset(h) && |r| == |h|
    ensures OrderedBut(r, lt, lo, -1, if moved then -1 else i0)
    ensures !moved ==> r == h
  {
    r := h;
    var i := i0;
    while 2 * i + 1 < |r|
      invariant i0 <= i && multiset(r) == multiset(h) && |r| == |h|
      invariant i == i0 ==> r == h
      invariant OrderedBut(r, lt, lo, i, if i == i0 then i0 else -1) && Bridged(r, lt, lo, i)
      decreases |r| - i
    {
      var j := 2 * i + 1;
      if j + 1 < |r| && lt(r[j + 1], r[j]) { j := j + 1; }
      if !lt(r[j], r[i]) { break; }
      DownStep(r, i, j, lo, lt, if i == i0 then i0 else -1);
      r := r[i := r[j]][j := r[i]];
      i := j;
    }
    moved := i > i0;
    DownStop(r, i, lo, lt, if moved then -1 else i0);
  }

  method Init<T(!new)>(h: seq<T>, lt: (T, T) -> bool) returns (r: seq<T>)
    requires WeakOrder(lt)
    ensures IsHeap(r, lt) && multiset(r) == multiset(h)
  {
    r := h;
    var k: nat := |r| / 2;
    while k > 0
      invariant |r| == |h| && multiset(r) == multiset(h) && k <= |r| / 2
      invariant OrderedBut(r, lt, k, -1, -1)
    {
      k := k - 1;
      var moved;
      r, moved := Down(r, k, k, lt);
    }
  }

  method Push<T(!new)>(h: seq<T>, x: T, lt: (T, T) -> bool) returns (r: seq<T>)
    requires WeakOrder(lt) && IsHeap(h, lt)
    ensures IsHeap(r, lt) && multiset(r) == multiset(h) + multiset{x}
  {
    var g := h + [x];
    forall i | 0 < i < |g| && i != |h|
      ensures InOrder(g, lt, i)
    {
      assert InOrder(h, lt, i);
    }
    r := Up(g, |h|, lt);
  }

  /** Remove the element at position i. */
  method Remove<T(!new)>(h: seq<T>, i: nat, lt: (T, T) -> bool) returns (r: seq<T>)
    requires WeakOrder(lt) && IsHeap(h, lt) && i < |h|
    ensures IsHeap(r, lt) && multiset(r) == multiset(h) - multiset{h[i]}
  {
    var n := |h| - 1;
    assert h == h[..n] + [h[n]];
    if i == n {
      r := h[..n];
      forall k | 0 < k < |r|
        ensures InOrder(r, lt, k)
      {
        assert InOrder(h, lt, k);
      }
      return;
    }
    var g := h[..n][i := h[n]];
    forall k | 0 < k < |g| && k != i && (k - 1) / 2 != i
      ensures InOrder(g, lt, k)
    {
      assert InOrder(h, lt, k);
    }
    forall k | 0 < k < |g| && (k - 1) / 2 == i > 0
      ensures !lt(g[k], g[(i - 1) / 2])
    {
      assert InOrder(h, lt, k) && InOrder(h, lt, i);
    }
    var moved;
    r, moved := Down(g, i, 0, lt);
    if !moved {
      r := Up(r, i, lt);
    }
  }

  /** Take the least element off the heap. */
  method Pop<T(!new)>(h: seq<T>, lt: (T, T) -> bool) returns (x: T, r: seq<T>)
    requires WeakOrder(lt) && IsHeap(h, lt) && |h| > 0
    ensures x == h[0] && forall y :: y in h ==> !lt(y, x)
    ensures IsHeap(r, lt) && multiset(r) == multiset(h) - multiset{x}
  {
    forall y | y in h
      ensures !lt(y, h[0])
    {
      var i :| 0 <= i < |h| && h[i] == y;
      RootIsLeast(h, lt, i);
    }
    x := h[0];
    r := Remove(h, 0, lt);
  }

  /** Sorting as container/heap and sort promise it: a permutation in rising order. */
  method Sort<T(!new)>(h: seq<T>, lt: (T, T) -> bool) returns (r: seq<T>)
    requires WeakOrder(lt)
    ensures multiset(r) == multiset(h)
    ensures forall i, j :: 0 <= i < j < |r| ==> !lt(r[j], r[i])
  {
    hide IsHeap, WeakOrder;
    var g := Init(h, lt);
    r := [];
    while g != []
      invariant IsHeap(g, lt) && multiset(r) + multiset(g) == multiset(h)
      invariant forall i, j :: 0 <= i < j < |r| ==> !lt(r[j], r[i])
      invariant forall i, y :: 0 <= i < |r| && y in multiset(g) ==> !lt(y, r[i])
      decreases |multiset(g)|
    {
      var x;
      assert g[0] in multiset(g);
      ghost var was := g;
      x, g := Pop(g, lt);
      assert forall y :: y in multiset(g) ==> y in was;
      r := r + [x];
    }
  }

  /** Go's range over a map: every key once, in no fixed order. */
  method ListOf<T>(s: set<T>) returns (r: seq<T>)
    ensures multiset(r) == multiset(s)
  {
    r := [];
    var todo := s;
    while todo != {}
      invariant todo <= s && multiset(r) == multiset(s - todo)
      decreases |todo|
    {
      var x :| x in todo;
      assert s - (todo - {x}) == s - todo + {x};
      todo := todo - {x};
      r := r + [x];
    }
    assert s - todo == s;
  }
}
