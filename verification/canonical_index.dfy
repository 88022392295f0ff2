/** The canonical index, number to hash, and the loops that rewrite it from one branch to another. */
module CanonicalIndexes {
  import opened Headers

  type Index = map<nat, Hash>

  /** Stored headers are chains from the genesis whose ancestors are stored too. */
  ghost predicate Rooted(genesis: Header, stored: set<Header>) {
    && genesis in stored
    && (forall h :: h in stored ==> IsChain(h) && Headers.Genesis(h) == genesis)
    && (forall h :: h in stored && h.number > 0 ==> h.parent.header in stored)
  }

  /** The canonical index is exactly the ancestor path of the head, with nothing above it. */
  ghost predicate CanonExact(canonical: Index, head: Header) {
    && IsChain(head)
    && (forall n: nat :: n in canonical <==> n <= head.number)
    && (forall n: nat :: n <= head.number ==> canonical[n] == H(At(head, n)))
  }

  /** From lo up to hi the index holds the path of head. */
  ghost predicate Spans(index: Index, head: Header, lo: nat, hi: nat)
    requires IsChain(head) && hi <= head.number + 1
  {
    forall n: nat :: lo <= n < hi ==> n in index && index[n] == H(At(head, n))
  }

  lemma ExactNumbers(canonical: Index, head: Header)
    requires CanonExact(canonical, head)
    ensures forall n: nat :: n in canonical <==> n <= head.number
  {
  }

  ghost predicate SameAt(index: Index, base: Index, n: nat) {
    (n in index <==> n in base) && (n in index ==> index[n] == base[n])
  }

  /** Outside lo up to hi nothing changed. */
  ghost predicate SameOutside(index: Index, base: Index, lo: nat, hi: nat) {
    forall n: nat :: !(lo <= n < hi) ==> SameAt(index, base, n)
  }

  /** Delete the canonical entries from `above` on, up to the first number without one. */
  method CutAbove(canonical: Index, above: nat, ghost top: nat) returns (index: Index)
    requires forall n: nat :: n in canonical <==> n <= top
    ensures forall n: nat :: n < above ==> SameAt(index, canonical, n)
    ensures above > 0 ==> NoneAbove(index, above - 1)
  {
    index := canonical;
    var i := above;
    while i in canonical
      invariant above <= i && (above <= top + 1 ==> i <= top + 1)
      invariant forall n: nat :: !(above <= n < i) ==> SameAt(index, canonical, n)
      invariant forall n: nat :: above <= n < i ==> n !in index
      decreases top + 1 - i
    {
      ghost var was := index;
      index := index - {i};
      forall n: nat | !(above <= n < i + 1)
        ensures SameAt(index, canonical, n)
      {
        assert SameAt(was, canonical, n);
      }
      i := i + 1;
    }
    forall n: nat | above <= n
      ensures n !in index
    {
      if n >= i { assert SameAt(index, canonical, n); }
    }
  }

  /** Write the path of head below `top` into the index, going back from `from` until it meets the canonical chain. */
  method WriteBack(canonical: Index, base: Index, stored: set<Header>, from: Hash, top: nat, ghost head: Header,
                   ghost current: Header, ghost genesis: Header) returns (index: Index)
    requires Rooted(genesis, stored) && IsChain(head) && 0 < top <= head.number
    requires from == H(At(head, top - 1)) && At(head, top - 1) in stored
    requires CanonExact(canonical, current) && current in stored
    requires forall n: nat :: n < top ==> SameAt(base, canonical, n)
    ensures Spans(index, head, 0, top) && SameOutside(index, base, 0, top)
  {
    hide Spans, SameOutside, CanonExact;
    index := base;
    var number: nat, hash := top - 1, from;
    SpanStart(index, head, top);
    while !(number in canonical && canonical[number] == hash)
      invariant number < top && hash == H(At(head, number)) && At(head, number) in stored
      invariant Spans(index, head, number + 1, top) && SameOutside(index, base, number + 1, top)
      decreases number
    {
      NotYetGenesis(canonical, current, genesis, stored, head, number);
      SpanGrow(index, base, head, number, top);
      index := index[number := hash];
      var header := hash.header;
      hash, number := header.parent, header.number - 1;
    }
    SpanMeet(index, base, canonical, head, current, number, top);
  }

  lemma SpanStart(index: Index, head: Header, top: nat)
    requires IsChain(head) && top <= head.number
    ensures Spans(index, head, top, top) && SameOutside(index, index, top, top)
  {
  }

  lemma SpanGrow(index: Index, base: Index, head: Header, n: nat, top: nat)
    requires IsChain(head) && n < top <= head.number
    requires Spans(index, head, n + 1, top) && SameOutside(index, base, n + 1, top)
    ensures var index' := index[n := H(At(head, n))]; Spans(index', head, n, top) && SameOutside(index', base, n, top)
  {
    var index' := index[n := H(At(head, n))];
    forall k: nat | !(n <= k < top)
      ensures SameAt(index', base, k)
    {
      assert SameAt(index, base, k);
    }
  }

  /** At number zero every stored chain meets the canonical one, so going back stops there at the latest. */
  lemma NotYetGenesis(canonical: Index, current: Header, genesis: Header, stored: set<Header>, head: Header, n: nat)
    requires Rooted(genesis, stored) && CanonExact(canonical, current) && current in stored
    requires IsChain(head) && n <= head.number && At(head, n) in stored
    requires !(n in canonical && canonical[n] == H(At(head, n)))
    ensures n > 0 && At(head, n).parent == H(At(head, n - 1)) && At(head, n - 1) in stored
  {
    if n > 0 { AtParent(head, n); }
  }

  lemma SpanMeet(index: Index, base: Index, canonical: Index, head: Header, current: Header, m: nat, top: nat)
    requires IsChain(head) && m < top <= head.number && CanonExact(canonical, current)
    requires m in canonical && canonical[m] == H(At(head, m))
    requires forall n: nat :: n < top ==> SameAt(base, canonical, n)
    requires Spans(index, head, m + 1, top) && SameOutside(index, base, m + 1, top)
    ensures Spans(index, head, 0, top) && SameOutside(index, base, 0, top)
  {
    forall n: nat | n <= m
      ensures n in index && index[n] == H(At(head, n))
    {
      assert SameAt(index, base, n) && SameAt(base, canonical, n);
      MeetAgree(current, head, m, n);
    }
  }

  // ----- writing a run of headers -----

  /** The run is the path of head from number lo on. */
  ghost predicate Along(run: seq<Header>, head: Header, lo: nat) {
    && IsChain(head) && lo + |run| <= head.number + 1
    && forall i {:trigger run[i]} :: 0 <= i < |run| ==> run[i] == At(head, lo + i)
  }

  ghost predicate NoneAbove(index: Index, top: nat) {
    forall n: nat :: top < n ==> n !in index
  }

  method WriteRun(base: Index, run: seq<Header>, ghost head: Header, ghost lo: nat) returns (index: Index)
    requires Along(run, head, lo)
    ensures Spans(index, head, lo, lo + |run|) && SameOutside(index, base, lo, lo + |run|)
  {
    index := base;
    for i := 0 to |run|
      invariant Spans(index, head, lo, lo + i) && SameOutside(index, base, lo, lo + i)
    {
      SpanPut(index, base, head, lo, lo + i);
      index := index[run[i].number := H(run[i])];
    }
  }

  lemma SpanPut(index: Index, base: Index, head: Header, lo: nat, hi: nat)
    requires IsChain(head) && lo <= hi <= head.number
    requires Spans(index, head, lo, hi) && SameOutside(index, base, lo, hi)
    ensures var index' := index[hi := H(At(head, hi))];
            Spans(index', head, lo, hi + 1) && SameOutside(index', base, lo, hi + 1)
  {
    var index' := index[hi := H(At(head, hi))];
    forall n: nat | !(lo <= n < hi + 1)
      ensures SameAt(index', base, n)
    {
      assert SameAt(index, base, n);
    }
  }

  lemma SpanKept(index: Index, base: Index, head: Header, a: nat, b: nat, lo: nat, hi: nat)
    requires IsChain(head) && b <= head.number + 1 && Spans(base, head, a, b) && SameOutside(index, base, lo, hi)
    requires b <= lo || hi <= a
    ensures Spans(index, head, a, b)
  {
    forall n: nat | a <= n < b
      ensures n in index && index[n] == H(At(head, n))
    {
      assert SameAt(index, base, n);
    }
  }

  lemma AboveKept(index: Index, base: Index, lo: nat, hi: nat, top: nat)
    requires NoneAbove(base, top) && SameOutside(index, base, lo, hi) && hi <= top + 1
    ensures NoneAbove(index, top)
  {
    forall n: nat | top < n
      ensures n !in index
    {
      assert SameAt(index, base, n);
    }
  }

  lemma SpansExact(index: Index, head: Header, mid: nat)
    requires IsChain(head) && mid <= head.number + 1 && NoneAbove(index, head.number)
    requires Spans(index, head, 0, mid) && Spans(index, head, mid, head.number + 1)
    ensures CanonExact(index, head)
  {
  }

  /** Piling a run onto the head of the canonical chain. */
  lemma PileUp(index: Index, canonical: Index, current: Header, head: Header)
    requires CanonExact(canonical, current) && IsChain(head) && current.number < head.number
    requires At(head, current.number) == current
    requires Spans(index, head, current.number + 1, head.number + 1)
    requires SameOutside(index, canonical, current.number + 1, head.number + 1)
    ensures CanonExact(index, head)
  {
    forall n: nat | n <= current.number
      ensures n in index && index[n] == H(At(head, n))
    {
      assert SameAt(index, canonical, n);
      MeetAgree(head, current, current.number, n);
    }
    forall n: nat | head.number < n
      ensures n !in index
    {
      assert SameAt(index, canonical, n);
    }
  }

  /** The index knows nothing of a header that is off the canonical path. */
  lemma OffPath(index: Index, canonical: Index, current: Header, head: Header)
    requires CanonExact(canonical, current) && IsChain(head) && SameAt(index, canonical, head.number)
    requires CanonExact(index, head)
    ensures head.number <= current.number && At(current, head.number) == head
  {
    assert head.number in index;
  }

  lemma AlongParts(run: seq<Header>, head: Header, lo: nat, k: nat)
    requires Along(run, head, lo) && k <= |run|
    ensures Along(run[..k], head, lo) && Along(run[k..], head, lo + k)
  {
  }

  /** After the cut, the way back, and the two runs, the index is the path of the new head. */
  lemma Rewritten(cut: Index, back: Index, known: Index, index: Index, head: Header, lo: nat, mid: nat)
    requires IsChain(head) && lo <= mid <= head.number + 1 && NoneAbove(cut, head.number)
    requires Spans(back, head, 0, lo) && SameOutside(back, cut, 0, lo)
    requires Spans(known, head, lo, mid) && SameOutside(known, back, lo, mid)
    requires Spans(index, head, mid, head.number + 1) && SameOutside(index, known, mid, head.number + 1)
    ensures CanonExact(index, head)
  {
    SpanKept(known, back, head, 0, lo, lo, mid);
    SpanKept(index, known, head, 0, lo, mid, head.number + 1);
    SpanKept(index, known, head, lo, mid, mid, head.number + 1);
    AboveKept(back, cut, 0, lo, head.number);
    AboveKept(known, back, lo, mid, head.number);
    AboveKept(index, known, mid, head.number + 1, head.number);
    SpansExact(index, head, mid);
  }

  lemma ExactWhen(index: Index, head: Header)
    requires IsChain(head) && NoneAbove(index, head.number)
    requires forall n: nat :: n <= head.number ==> n in index && index[n] == H(At(head, n))
    ensures CanonExact(index, head)
  {
  }
}
