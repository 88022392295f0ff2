/** HeaderChain: the header database with its canonical index, through imports, forks and rewinds. */
module HeaderChains {
  import opened Headers
  import opened CanonicalIndexes
  import opened Transactions

  datatype WriteStatus = NonStat | CanonStat | SideStat

  datatype WriteResult =
    | UnknownAncestor
    | Written(status: WriteStatus, ignored: nat, imported: nat, last: Option<Header>)

  datatype Op = Insert(batch: seq<Header>, coin: bool) | Rewind(head: nat)

  // ----- what the database must look like -----

  /** Every stored header, and no other, has its total difficulty on record: the sum along its path. */
  ghost predicate SumsKept(stored: set<Header>, td: map<Header, nat>) {
    td.Keys == stored && forall h :: h in td ==> td[h] == TotalDifficulty(h)
  }

  /** Only the genesis may have no difficulty of its own. */
  ghost predicate Positive(stored: set<Header>) {
    forall h :: h in stored && h.number > 0 ==> h.difficulty > 0
  }

  /** No stored header extends the head. */
  ghost predicate Topmost(stored: set<Header>, head: Header) {
    forall h :: h in stored ==> h.parent != H(head)
  }

  /** What ValidateHeaderChain has established of a batch: consecutive, linked, of positive difficulty, and numbered
      after its parent. */
  predicate Validated(stored: set<Header>, batch: seq<Header>) {
    && (forall i :: 0 <= i < |batch| ==> batch[i].difficulty > 0 && batch[i].number > 0)
    && (forall i :: 0 < i < |batch| ==>
          batch[i].parent == H(batch[i - 1]) && batch[i].number == batch[i - 1].number + 1)
    && (batch != [] && batch[0].parent.H? && batch[0].parent.header in stored ==>
          batch[0].number == batch[0].parent.header.number + 1)
  }

  /** The batch attaches to a stored header. */
  predicate Attached(stored: set<Header>, batch: seq<Header>) {
    batch != [] && batch[0].parent.H? && batch[0].parent.header in stored
  }

  lemma {:induction false} BatchChains(genesis: Header, stored: set<Header>, batch: seq<Header>, i: nat)
    requires Rooted(genesis, stored) && Validated(stored, batch) && Attached(stored, batch) && i < |batch|
    ensures IsChain(batch[i]) && Headers.Genesis(batch[i]) == genesis && batch[i].number == batch[0].number + i
    ensures i > 0 ==> At(batch[i], batch[i - 1].number) == batch[i - 1]
    ensures At(batch[i], batch[0].number - 1) == batch[0].parent.header
  {
    if i == 0 {
      assert batch[0].parent.header in stored;
    } else {
      BatchChains(genesis, stored, batch, i - 1);
    }
  }

  /** Once a header of the batch is unknown, so are all after it. */
  lemma {:induction false} UnknownStays(genesis: Header, stored: set<Header>, batch: seq<Header>, f: nat, j: nat)
    requires Rooted(genesis, stored) && Validated(stored, batch) && f <= j < |batch| && batch[f] !in stored
    ensures batch[j] !in stored
  {
    if f < j { UnknownStays(genesis, stored, batch, f, j - 1); }
  }

  function SetOf(batch: seq<Header>): set<Header> { set h | h in batch }

  lemma RootedWith(genesis: Header, stored: set<Header>, batch: seq<Header>)
    requires Rooted(genesis, stored) && Validated(stored, batch) && Attached(stored, batch)
    ensures Rooted(genesis, stored + SetOf(batch)) && (Positive(stored) ==> Positive(stored + SetOf(batch)))
  {
    var all := stored + SetOf(batch);
    forall h | h in all
      ensures IsChain(h) && Headers.Genesis(h) == genesis && (h.number > 0 ==> h.parent.header in all)
    {
      if h !in stored {
        var i :| 0 <= i < |batch| && batch[i] == h;
        BatchChains(genesis, stored, batch, i);
        if i > 0 { assert batch[i - 1] in batch; }
      }
    }
  }

  /** Fork choice: more total difficulty wins; a tie goes to the lower head, and at equal height to the coin. */
  predicate Prefers(newTD: nat, localTD: nat, number: nat, head: nat, coin: bool) {
    newTD > localTD || (newTD == localTD && (number < head || (number == head && coin)))
  }

  // ----- whole runs, seen from outside -----

  /** What decides the fate of an import or rewind: the stored headers and the head. */
  datatype View = View(stored: set<Header>, head: Header)

  /** The fork choice between a head and the last header of a batch. */
  predicate Beats(head: Header, batch: seq<Header>, coin: bool)
    requires batch != []
  {
    Prefers(TotalDifficulty(Last(batch)), TotalDifficulty(head), Last(batch).number, head.number, coin)
  }

  /** The import passes validation and attaches to a stored header. */
  predicate Taken(v: View, op: Op) {
    op.Insert? && Validated(v.stored, op.batch) && Attached(v.stored, op.batch)
  }

  /** An import that holds nothing new, and yet the fork choice moves the head to its last header. */
  predicate Misleads(v: View, op: Op) {
    Taken(v, op) && SetOf(op.batch) <= v.stored && Beats(v.head, op.batch, op.coin) && Last(op.batch) != v.head
  }

  /** What is stored and which header is the head after one operation. */
  function Step(v: View, op: Op): View {
    match op
    case Insert(batch, coin) =>
      if !Taken(v, op) then v
      else View(v.stored + SetOf(batch), if Beats(v.head, batch, coin) then Last(batch) else v.head)
    case Rewind(n) =>
      if !IsChain(v.head) || v.head.number <= n then v
      else View((set h | h in v.stored && h.number <= n), At(v.head, n))
  }

  function Replay(v: View, ops: seq<Op>): View {
    if ops == [] then v else Step(Replay(v, ops[..|ops| - 1]), ops[|ops| - 1])
  }

  /** No operation of the run, when its turn comes, is an import that misleads the index. */
  predicate Clean(v: View, ops: seq<Op>) {
    forall i :: 0 <= i < |ops| ==> !Misleads(Replay(v, ops[..i]), ops[i])
  }

  lemma ReplayNone(v: View, ops: seq<Op>)
    ensures Replay(v, ops[..0]) == v && Clean(v, ops[..0])
  {
  }

  /** A run is clean as far as it goes exactly if it was before and its next operation does not mislead. */
  lemma ReplayNext(v: View, ops: seq<Op>, i: nat)
    requires i < |ops|
    ensures Replay(v, ops[..i + 1]) == Step(Replay(v, ops[..i]), ops[i])
    ensures Clean(v, ops[..i + 1]) <==> Clean(v, ops[..i]) && !Misleads(Replay(v, ops[..i]), ops[i])
    ensures Clean(v, ops) ==> Clean(v, ops[..i + 1])
  {
    var upto := ops[..i + 1];
    assert upto[..i] == ops[..i];
    assert forall k :: 0 <= k < i ==> upto[..k] == ops[..k] && ops[..i][..k] == ops[..k] && ops[..i][k] == upto[k];
    assert forall k :: 0 <= k <= i ==> upto[..k] == ops[..k] && upto[k] == ops[k];
  }

  /** Every import ends in a header that is neither stored at the start nor in an earlier import. */
  predicate AlwaysNew(stored: set<Header>, ops: seq<Op>) {
    forall i :: 0 <= i < |ops| && ops[i].Insert? && ops[i].batch != [] ==>
      && Last(ops[i].batch) !in stored
      && forall j :: 0 <= j < i && ops[j].Insert? ==> Last(ops[i].batch) !in ops[j].batch
  }

  /** Nothing is stored but what was at the start or came with an import. */
  lemma {:induction false} ReplayStores(v: View, ops: seq<Op>, h: Header)
    requires h in Replay(v, ops).stored
    ensures h in v.stored || exists j :: 0 <= j < |ops| && ops[j].Insert? && h in ops[j].batch
  {
    if ops != [] && h !in v.stored {
      var front, op := ops[..|ops| - 1], ops[|ops| - 1];
      if h in Replay(v, front).stored {
        ReplayStores(v, front, h);
        var j :| 0 <= j < |front| && front[j].Insert? && h in front[j].batch;
        assert ops[j] == front[j];
      } else {
        assert ops[|ops| - 1].Insert? && h in op.batch;
      }
    }
  }

  /** A run whose imports always end in something new is clean, whatever the coins. */
  lemma NewIsClean(v: View, ops: seq<Op>)
    requires AlwaysNew(v.stored, ops)
    ensures Clean(v, ops)
  {
    forall i | 0 <= i < |ops|
      ensures !Misleads(Replay(v, ops[..i]), ops[i])
    {
      if Misleads(Replay(v, ops[..i]), ops[i]) {
        var last := Last(ops[i].batch);
        assert last in SetOf(ops[i].batch);
        ReplayStores(v, ops[..i], last);
      }
    }
  }

  class HeaderChain {
    const genesis: Header
    var stored: set<Header>
    var td: map<Header, nat>
    var canonical: Index
    var currentHeader: Header
    var headHash: Hash

    ghost predicate Database()
      reads this
    {
      genesis.number == 0 && Rooted(genesis, stored) && Positive(stored) && SumsKept(stored, td)
    }

    /** The whole invariant. */
    ghost predicate Inv()
      reads this
    {
      && Database() && currentHeader in stored && headHash == H(currentHeader)
      && CanonExact(canonical, currentHeader) && Topmost(stored, currentHeader)
    }

    constructor (genesis: Header)
      requires genesis.number == 0 && genesis.parent == ZeroHash
      ensures Inv() && currentHeader == genesis && stored == {genesis}
    {
      this.genesis, stored, td := genesis, {genesis}, map[genesis := genesis.difficulty];
      canonical, currentHeader, headHash := map[0 := H(genesis)], genesis, H(genesis);
    }

    /** Store the unknown part of a batch with its total difficulties. `first` is the place of the first unknown
        header, or -1. */
    method Import(batch: seq<Header>) returns (inserted: seq<Header>, first: int, newTD: nat)
      requires Database() && Validated(stored, batch) && Attached(stored, batch)
      modifies this`stored, this`td
      ensures Database() && stored == old(stored) + SetOf(batch)
      ensures newTD == TotalDifficulty(batch[|batch| - 1])
      ensures first == -1 ==> inserted == [] && forall i :: 0 <= i < |batch| ==> batch[i] in old(stored)
      ensures first != -1 ==> 0 <= first < |batch| && inserted == batch[first..] && batch[first] !in old(stored)
      ensures forall i :: 0 <= i < first ==> batch[i] in old(stored)
    {
      hide Rooted, Positive, SumsKept, SetOf;
      SumsStart(stored, td, batch);
      var parentKnown := true;
      var tds: map<Header, nat> := td;
      inserted, first, newTD := [], -1, td[batch[0].parent.header];
      for i := 0 to |batch|
        invariant stored == old(stored) && td == old(td)
        invariant newTD == if i == 0 then TotalDifficulty(batch[0].parent.header) else TotalDifficulty(batch[i - 1])
        invariant parentKnown <==> first == -1
        invariant first == -1 ==> inserted == [] && forall j :: 0 <= j < i ==> batch[j] in stored
        invariant first != -1 ==> 0 <= first < i && inserted == batch[first..i] && batch[first] !in stored
        invariant forall j :: 0 <= j < first ==> batch[j] in stored
        invariant SumsKept(stored + SetOf(batch[..i]), tds)
      {
        var header := batch[i];
        newTD := newTD + header.difficulty;
        var alreadyKnown := parentKnown && header in stored;
        SumsNext(stored, batch, i, tds, newTD);
        if !alreadyKnown {
          tds := tds[header := newTD];
          inserted := inserted + [header];
          if first < 0 { first := i; }
          assert inserted == batch[first..i + 1];
        }
        parentKnown := alreadyKnown;
      }
      assert batch[..|batch|] == batch;
      RootedWith(genesis, stored, batch);
      AllIn(stored, batch, inserted, first);
      td := tds;
      stored := stored + SetOf(inserted);
    }

    ghost function Seen(): View
      reads this
    {
      View(stored, currentHeader)
    }

    /** The fork choice on the last header of a batch. */
    predicate Wins(batch: seq<Header>, coin: bool)
      requires batch != []
      reads this
    {
      Beats(currentHeader, batch, coin)
    }

    /** The batch holds nothing new, and yet the fork choice moves the head to its last header. */
    predicate Stale(batch: seq<Header>, coin: bool)
      requires batch != []
      reads this
    {
      SetOf(batch) <= stored && Wins(batch, coin) && Last(batch) != currentHeader
    }

    /** Import a validated batch. `coin` is the random choice between heads of equal difficulty and height. */
    method WriteHeaders(batch: seq<Header>, coin: bool) returns (result: WriteResult)
      requires Inv() && Validated(stored, batch)
      modifies this
      ensures batch == [] ==> result == Written(NonStat, 0, 0, None)
      ensures batch != [] && !old(Attached(stored, batch)) ==> result == UnknownAncestor
      ensures !old(Attached(stored, batch)) ==> Inv() && unchanged(this)
      ensures old(Attached(stored, batch)) ==>
                Database() && stored == old(stored) + SetOf(batch) && headHash == H(currentHeader)
      ensures old(Attached(stored, batch)) ==>
                currentHeader == if old(Wins(batch, coin)) then Last(batch) else old(currentHeader)
      // the fork choice: by the sum of difficulties, then to the lower header, then by the coin
      ensures old(Attached(stored, batch)) ==>
                var sum, local := TotalDifficulty(Last(batch)), TotalDifficulty(old(currentHeader));
                var number, head := Last(batch).number, old(currentHeader).number;
                && (sum > local ==> currentHeader == Last(batch))
                && (sum < local ==> currentHeader == old(currentHeader))
                && (sum == local && number < head ==> currentHeader == Last(batch))
                && (sum == local && number > head ==> currentHeader == old(currentHeader))
                && (sum == local && number == head ==>
                      currentHeader == if coin then Last(batch) else old(currentHeader))
      ensures old(Attached(stored, batch)) ==> (Inv() <==> !old(Stale(batch, coin)))
      ensures TotalDifficulty(currentHeader) >= TotalDifficulty(old(currentHeader))
      ensures old(Attached(stored, batch)) ==>
                && result.Written? && result.last == Some(Last(batch)) && result.ignored + result.imported == |batch|
                && (forall i :: 0 <= i < |batch| ==> (batch[i] in old(stored) <==> i < result.ignored))
                && result.status
                   == (if result.imported == 0 then NonStat else if old(Wins(batch, coin)) then CanonStat else SideStat)
    {
      hide Rooted, Positive, SumsKept, CanonExact, Topmost, Validated, SetOf, SameAt;
      if batch == [] { return Written(NonStat, 0, 0, None); }
      KnownParent(stored, td, batch);
      if !(batch[0].parent.H? && batch[0].parent.header in td) { return UnknownAncestor; }
      ghost var before := stored;
      var inserted, first, newTD := Import(batch);
      Counted(genesis, before, stored, batch, first);
      SumOf(stored, td, currentHeader);
      var localTD := td[currentHeader];
      var reorg := Prefers(newTD, localTD, batch[|batch| - 1].number, currentHeader.number, coin);
      var status := SideStat;
      if reorg {
        FirstChild(before, batch, currentHeader, first);
        var index := Reindex(batch, first, inserted);
        Moved(genesis, before, stored, batch, first, canonical, index, currentHeader);
        canonical, headHash, currentHeader := index, H(batch[|batch| - 1]), batch[|batch| - 1];
        status := CanonStat;
      } else {
        PassedOver(genesis, before, batch, currentHeader);
      }
      if inserted == [] { status := NonStat; }
      result := Written(status, |batch| - |inserted|, |inserted|, Some(batch[|batch| - 1]));
    }

    /** The canonical index once the fork choice went for the batch, which is stored by now. */
    method Reindex(batch: seq<Header>, first: int, inserted: seq<Header>) returns (index: Index)
      requires Rooted(genesis, stored) && currentHeader in stored && CanonExact(canonical, currentHeader)
      requires headHash == H(currentHeader) && Validated(stored, batch) && Attached(stored, batch)
      requires -1 <= first < |batch| && inserted == if first == -1 then [] else batch[first..]
      requires batch[0].parent == headHash ==> first == 0
      ensures first != -1 ==> CanonExact(index, Last(batch))
      ensures first == -1 ==> SameAt(index, canonical, Last(batch).number)
      ensures first == -1 && Last(batch) == currentHeader ==> CanonExact(index, currentHeader)
    {
      hide Rooted, CanonExact, Spans, SameOutside, Validated, Along, NoneAbove;
      BatchAlong(genesis, stored, batch);
      ghost var last, low := Last(batch), batch[0].number;
      if batch[0].parent != headHash {
        ExactNumbers(canonical, currentHeader);
        var cut := CutAbove(canonical, batch[|batch| - 1].number + 1, currentHeader.number);
        var back := WriteBack(canonical, cut, stored, batch[0].parent, batch[0].number, last, currentHeader, genesis);
        var upto: nat := if first < 0 then 0 else first;
        AlongParts(batch, last, low, upto);
        var known := WriteRun(back, batch[..upto], last, low);
        if inserted == [] { AlongParts(batch, last, low, |batch|); }
        index := WriteRun(known, inserted, last, if first < 0 then low + |batch| else low + first);
        if first != -1 {
          Rewritten(cut, back, known, index, last, low, low + first);
        } else {
          Untouched(canonical, cut, back, known, index, low, last, currentHeader);
        }
      } else {
        index := WriteRun(canonical, inserted, last, low);
        PileUp(index, canonical, currentHeader, last);
      }
    }

    /** The numbers from n on that have headers, up to the first that has none. */
    method NumbersFrom(n: nat) returns (nums: set<nat>)
      requires Rooted(genesis, stored)
      ensures forall k: nat :: k in nums <==> k >= n && HeadersAt(stored, k) != {}
    {
      hide Rooted, HeadersAt;
      nums := {};
      var k := n;
      while HeadersAt(stored, k) != {}
        invariant n <= k && forall i: nat :: i in nums <==> n <= i < k
        invariant forall i: nat :: n <= i < k ==> HeadersAt(stored, i) != {}
        decreases |From(stored, k)|
      {
        Fewer(stored, k);
        nums := nums + {k};
        k := k + 1;
      }
      NoneFurther(genesis, stored, k);
    }

    /** Rewind the head to number `head`. The deletions are collected in a batch and made at the end. */
    method SetHead(head: nat)
      requires Inv()
      modifies this
      ensures Inv()
      ensures old(currentHeader).number <= head ==> currentHeader == old(currentHeader) && stored == old(stored)
      ensures old(currentHeader).number > head ==>
                && currentHeader == At(old(currentHeader), head)
                && stored == set h | h in old(stored) && h.number <= head
    {
      hide Rooted, Positive, SumsKept, CanonExact, Topmost, HeadersAt, Numbered;
      ghost var top := currentHeader;
      var origin, gone: set<Header>, cut: set<nat> := true, {}, {};
      OnOwnPath(genesis, stored, top);
      NothingGone(stored, td, canonical, gone, cut);
      while currentHeader.number > head
        invariant unchanged(`stored) && unchanged(`td) && unchanged(`canonical)
        invariant headHash == H(currentHeader) && currentHeader in stored
        invariant currentHeader.number <= top.number && At(top, currentHeader.number) == currentHeader
        invariant gone == Numbered(stored, cut)
        invariant origin ==> currentHeader == top && gone == {} && cut == {}
        invariant !origin ==> head <= currentHeader.number < top.number
        invariant !origin ==> forall n: nat :: n in cut <==> n > currentHeader.number && HeadersAt(stored, n) != {}
        decreases currentHeader.number
      {
        var header := currentHeader;
        var num := header.number;
        NextDown(genesis, stored, top, header);
        var parent := if header.parent.H? && header.parent.header in stored then header.parent.header else genesis;
        currentHeader, headHash := parent, H(parent);
        var nums: set<nat> := {};
        if origin {
          nums := NumbersFrom(num + 1);
          origin := false;
        }
        nums := nums + {num};
        gone, cut := Collect(stored, nums, header, gone, cut);
      }
      if origin {
        NothingGone(stored, td, canonical, gone, cut);
      } else {
        Rewound(genesis, stored, td, canonical, top, currentHeader.number, cut);
      }
      stored, td, canonical := stored - gone, td - gone, canonical - cut;
    }

    /** The canonical hash on record for a number, or the zero hash. */
    function Canon(n: nat): Hash
      reads this
    {
      if n in canonical then canonical[n] else ZeroHash
    }

    predicate Known(hash: Hash, number: nat)
      reads this
    {
      hash.H? && hash.header in stored && hash.header.number == number
    }

    /** A number above the head asked for under the zero hash: the missing canonical entry then looks like a match. */
    ghost predicate Blank(hash: Hash, number: nat, ancestor: nat)
      reads this
    {
      hash == ZeroHash && currentHeader.number < number && 2 <= ancestor <= number <= currentHeader.number + ancestor
    }

    /** The ancestor of a header, reading at most `max` headers before the canonical index takes over. */
    method GetAncestor(hash: Hash, number: nat, ancestor: nat, max: nat) returns (r: Hash, n: nat, left: nat)
      requires Inv()
      ensures ((r, n) == (ZeroHash, 0) || (r, n) == (Up(hash, ancestor), number - ancestor)) <==>
                !Blank(hash, number, ancestor)
      ensures Known(hash, number) && ancestor <= number ==>
                (r.H? <==> ancestor <= 1 || ancestor <= max || OnPath(currentHeader, hash.header, number - max))
      // a header is read for every step down a side branch, and none from the canonical chain on
      ensures left <= max && (ancestor <= 1 || ancestor > number ==> left == max)
      ensures !Known(hash, number) ==> max <= left + 1
      ensures Known(hash, number) && 1 < ancestor <= number ==>
                var walked: nat := max - left;
                && walked <= ancestor && (walked > 0 ==> !OnPath(currentHeader, hash.header, number - walked + 1))
                && (walked == ancestor || left == 0 || OnPath(currentHeader, hash.header, number - walked))
    {
      hide Rooted, Positive, SumsKept, Topmost, At, IsChain;
      if Known(hash, number) { Climb(genesis, stored, hash.header, 0); }
      r, n, left := hash, number, max;
      if ancestor > number { return ZeroHash, 0, left; }
      if ancestor == 1 {
        if Known(hash, number) { Climb(genesis, stored, hash.header, 1); return hash.header.parent, number - 1, left; }
        return ZeroHash, 0, left;
      }
      var steps: nat := ancestor;
      while steps != 0
        invariant steps <= n && number - n == ancestor - steps == max - left && r == Up(hash, number - n)
        invariant steps < ancestor ==> Known(hash, number) && Known(r, n)
        invariant Known(hash, number) ==> IsChain(hash.header) && r == H(At(hash.header, n))
        invariant Known(hash, number) && n < number ==> !OnPath(currentHeader, hash.header, n + 1)
        decreases steps
      {
        if Canon(n) == r {
          UpUp(hash, number - n, steps);
          if r.H? { OnCanon(currentHeader, n, steps); }
          if Known(hash, number) { Shortcut(currentHeader, hash.header, n, left); }
          return Canon(n - steps), n - steps, left;
        }
        if left == 0 {
          return ZeroHash, 0, 0;
        }
        left, steps := left - 1, steps - 1;
        if !Known(r, n) { return ZeroHash, 0, left; }
        Climb(genesis, stored, hash.header, number - n + 1);
        UpUp(hash, number - n, 1);
        r, n := r.header.parent, n - 1;
      }
    }

    /** Any sequence of imports and rewinds, up to the first import that misleads the index. A batch that fails
        validation is refused. */
    method Run(ops: seq<Op>) returns (n: nat)
      requires Inv()
      modifies this
      ensures Database() && headHash == H(currentHeader) && n <= |ops|
      // the invariant survives exactly the clean runs, and any other stops after its first misleading import
      ensures (Inv() <==> Clean(old(Seen()), ops)) && (Inv() <==> n == |ops|)
      ensures n < |ops| ==> Clean(old(Seen()), ops[..n]) && Misleads(Replay(old(Seen()), ops[..n]), ops[n])
      ensures Seen() == Replay(old(Seen()), if n < |ops| then ops[..n + 1] else ops)
      // so imports that always end in something new keep it, whatever the rewinds and the coins
      ensures AlwaysNew(old(stored), ops) ==> Inv()
      ensures (forall i :: 0 <= i < |ops| ==> ops[i].Insert?) ==>
                TotalDifficulty(currentHeader) >= TotalDifficulty(old(currentHeader))
    {
      hide TotalDifficulty, Misleads, Replay, Step, Clean, AlwaysNew, HeaderChain.Database, CanonExact, Topmost;
      if AlwaysNew(stored, ops) { NewIsClean(Seen(), ops); }
      n := 0;
      ReplayNone(old(Seen()), ops);
      while n < |ops|
        invariant n <= |ops| && Inv()
        invariant Seen() == Replay(old(Seen()), ops[..n]) && Clean(old(Seen()), ops[..n])
        invariant (forall i :: 0 <= i < |ops| ==> ops[i].Insert?) ==>
                    TotalDifficulty(currentHeader) >= TotalDifficulty(old(currentHeader))
      {
        ReplayNext(old(Seen()), ops, n);
        var misled := Misleads(View(stored, currentHeader), ops[n]);
        Turn(ops[n]);
        if misled { return; }
        n := n + 1;
      }
      assert ops[..|ops|] == ops;
    }

    /** One operation of a run. */
    method Turn(op: Op)
      requires Inv()
      modifies this
      ensures Database() && headHash == H(currentHeader) && Seen() == Step(old(Seen()), op)
      ensures Inv() <==> !Misleads(old(Seen()), op)
      ensures op.Insert? ==> TotalDifficulty(currentHeader) >= TotalDifficulty(old(currentHeader))
    {
      hide Rooted, Positive, SumsKept, CanonExact, Topmost, Validated, TotalDifficulty, Beats, SetOf;
      match op {
        case Insert(batch, coin) =>
          if Validated(stored, batch) {
            var _ := WriteHeaders(batch, coin);
          }
        case Rewind(head) =>
          HeadIsChain(genesis, stored, currentHeader);
          SetHead(head);
      }
    }
  }

  lemma HeadIsChain(genesis: Header, stored: set<Header>, head: Header)
    requires Rooted(genesis, stored) && head in stored
    ensures IsChain(head)
  {
  }

  /** Importing a known side branch of equal weight again can move the head without moving the index. */
  method KnownBatchGoesStale() returns (chain: HeaderChain)
    ensures fresh(chain) && chain.Database() && !chain.Inv()
  {
    hide Rooted, Positive, SumsKept, CanonExact, Topmost, TotalDifficulty, HeaderChain.Database;
    var genesis := Header(ZeroHash, 0, 1, [], 0);
    var left, right := Header(H(genesis), 1, 1, [], 0), Header(H(genesis), 1, 1, [], 1);
    Weigh(genesis, left, right);
    chain := new HeaderChain(genesis);
    assert [left][0] in SetOf([left]);
    var _ := chain.WriteHeaders([left], false);
    var _ := chain.WriteHeaders([right], false);
    var _ := chain.WriteHeaders([right], true);
  }

  /** Asked for the grandparent of the zero hash at height two, a chain of only a genesis names the genesis. */
  method ZeroHashMatches() returns (r: Hash, n: nat)
    ensures !((r, n) == (ZeroHash, 0) || (r, n) == (Up(ZeroHash, 2), 0))
  {
    var chain := new HeaderChain(Header(ZeroHash, 0, 1, [], 0));
    var left;
    r, n, left := chain.GetAncestor(ZeroHash, 2, 2, 0);
  }

  /** Rewinding to a height the head has not passed leaves longer, lighter side branches in place. */
  method SideBranchSurvives() returns (chain: HeaderChain, tip: Header)
    ensures fresh(chain) && chain.Inv() && chain.currentHeader.number == 1 && tip in chain.stored && tip.number == 2
  {
    hide Rooted, Positive, SumsKept, CanonExact, Topmost, TotalDifficulty, HeaderChain.Database;
    var genesis := Header(ZeroHash, 0, 1, [], 0);
    var heavy, light := Header(H(genesis), 1, 3, [], 0), Header(H(genesis), 1, 1, [], 1);
    tip := Header(H(light), 2, 1, [], 0);
    Weigh(genesis, heavy, light);
    Weigh(light, tip, tip);
    chain := new HeaderChain(genesis);
    assert [heavy][0] in SetOf([heavy]);
    var _ := chain.WriteHeaders([heavy], false);
    var _ := chain.WriteHeaders([light, tip], false);
    assert tip == [light, tip][1];
    chain.SetHead(1);
  }

  lemma Weigh(parent: Header, a: Header, b: Header)
    requires a.parent == H(parent) && b.parent == H(parent)
    ensures TotalDifficulty(a) == TotalDifficulty(parent) + a.difficulty
    ensures TotalDifficulty(b) == TotalDifficulty(parent) + b.difficulty
  {
  }

  function Last(batch: seq<Header>): Header
    requires batch != []
  {
    batch[|batch| - 1]
  }

  /** An attached batch is the top of its last header's path. */
  lemma BatchAlong(genesis: Header, stored: set<Header>, batch: seq<Header>)
    requires Rooted(genesis, stored) && Validated(stored, batch) && Attached(stored, batch)
    ensures IsChain(Last(batch)) && Last(batch).number == batch[0].number + |batch| - 1 && batch[0].number > 0
    ensures Along(batch, Last(batch), batch[0].number)
    ensures batch[0].parent == H(At(Last(batch), batch[0].number - 1))
  {
    var n := |batch| - 1;
    BatchChains(genesis, stored, batch, n);
    forall i | 0 <= i < |batch|
      ensures batch[i] == At(Last(batch), batch[0].number + i)
    {
      Within(genesis, stored, batch, i, n);
    }
  }

  lemma {:induction false} Within(genesis: Header, stored: set<Header>, batch: seq<Header>, i: nat, j: nat)
    requires Rooted(genesis, stored) && Validated(stored, batch) && Attached(stored, batch) && i <= j < |batch|
    ensures IsChain(batch[j]) && batch[j].number == batch[0].number + j && At(batch[j], batch[0].number + i) == batch[i]
  {
    BatchChains(genesis, stored, batch, j);
    if i < j { Within(genesis, stored, batch, i, j - 1); }
  }

  /** When there was nothing new to write, the numbers of the batch keep their old entries. */
  lemma Untouched(canonical: Index, cut: Index, back: Index, known: Index, index: Index, lo: nat, head: Header,
                  current: Header)
    requires IsChain(head) && lo <= head.number && CanonExact(canonical, current) && NoneAbove(cut, head.number)
    requires forall n: nat :: n <= head.number ==> SameAt(cut, canonical, n)
    requires Spans(back, head, 0, lo) && SameOutside(back, cut, 0, lo)
    requires SameOutside(known, back, lo, lo) && SameOutside(index, known, head.number + 1, head.number + 1)
    ensures SameAt(index, canonical, head.number)
    ensures head == current ==> CanonExact(index, current)
  {
    assert SameAt(back, cut, head.number) && SameAt(cut, canonical, head.number);
    assert SameAt(known, back, head.number) && SameAt(index, known, head.number);
    if head == current {
      forall n: nat
        ensures n in index <==> n <= head.number
        ensures n <= head.number ==> index[n] == H(At(head, n))
      {
        assert SameAt(known, back, n) && SameAt(index, known, n);
        if n >= lo { assert SameAt(back, cut, n) && (n <= head.number ==> SameAt(cut, canonical, n)); }
      }
    }
  }

  // ----- what an import does to the head -----

  /** Total difficulty grows along every stored path. */
  lemma {:induction false} Grows(genesis: Header, stored: set<Header>, h: Header, n: nat)
    requires Rooted(genesis, stored) && Positive(stored) && h in stored && n < h.number
    ensures TotalDifficulty(At(h, n)) < TotalDifficulty(h)
  {
    if n < h.number - 1 { Grows(genesis, stored, h.parent.header, n); }
  }

  /** A batch that the fork choice passes over does not extend the head. */
  lemma PassedOver(genesis: Header, stored: set<Header>, batch: seq<Header>, current: Header)
    requires Rooted(genesis, stored) && Positive(stored) && Validated(stored, batch) && Attached(stored, batch)
    requires current in stored && Topmost(stored, current) && TotalDifficulty(Last(batch)) <= TotalDifficulty(current)
    ensures Topmost(stored + SetOf(batch), current)
  {
    hide Rooted, Positive, Validated, Along;
    var all := stored + SetOf(batch);
    RootedWith(genesis, stored, batch);
    forall h | h in all
      ensures h.parent != H(current)
    {
      if h !in stored {
        var i :| 0 <= i < |batch| && batch[i] == h;
        Outgrown(genesis, stored, all, batch, i);
      }
    }
  }

  /** The last header of a batch has more total difficulty than the parent of any header of the batch. */
  lemma Outgrown(genesis: Header, stored: set<Header>, all: set<Header>, batch: seq<Header>, i: nat)
    requires Rooted(genesis, stored) && Validated(stored, batch) && Attached(stored, batch) && i < |batch|
    requires all == stored + SetOf(batch) && Rooted(genesis, all) && Positive(all)
    ensures batch[i].parent.H? && TotalDifficulty(batch[i].parent.header) < TotalDifficulty(Last(batch))
  {
    hide Rooted, Positive, Validated;
    BatchAlong(genesis, stored, batch);
    var last, n := Last(batch), batch[0].number + i;
    assert batch[i] == At(last, n) && batch[|batch| - 1] in SetOf(batch);
    AtParent(last, n);
    Grows(genesis, all, last, n - 1);
  }

  /** A header that was unknown has no children yet. */
  lemma NewHead(genesis: Header, stored: set<Header>, batch: seq<Header>, first: nat)
    requires Rooted(genesis, stored) && Validated(stored, batch) && Attached(stored, batch)
    requires first < |batch| && batch[first] !in stored
    ensures Topmost(stored + SetOf(batch), Last(batch)) && Last(batch) in stored + SetOf(batch)
  {
    var last := Last(batch);
    UnknownStays(genesis, stored, batch, first, |batch| - 1);
    BatchAlong(genesis, stored, batch);
    assert batch[|batch| - 1] in SetOf(batch);
    forall h | h in stored + SetOf(batch)
      ensures h.parent != H(last)
    {
      if h in stored {
        assert h.number > 0 ==> h.parent.header in stored;
      } else {
        var i :| 0 <= i < |batch| && batch[i] == h;
        assert batch[i] == At(last, batch[0].number + i);
        AtParent(last, batch[0].number + i);
      }
    }
  }

  /** A known header that the fork choice prefers is off the canonical path, so the index cannot become right. */
  lemma StaysStale(genesis: Header, stored: set<Header>, canonical: Index, index: Index, current: Header, last: Header)
    requires Rooted(genesis, stored) && Positive(stored) && current in stored && last in stored && last != current
    requires CanonExact(canonical, current) && SameAt(index, canonical, last.number)
    requires TotalDifficulty(last) >= TotalDifficulty(current)
    ensures !CanonExact(index, last)
  {
    if CanonExact(index, last) {
      OffPath(index, canonical, current, last);
      if last.number < current.number { Grows(genesis, stored, current, last.number); }
    }
  }

  /** Storing the unknown rest of a batch stores the batch. */
  lemma AllIn(stored: set<Header>, batch: seq<Header>, inserted: seq<Header>, first: int)
    requires -1 <= first < |batch| && inserted == (if first == -1 then [] else batch[first..])
    requires forall i :: 0 <= i < (if first == -1 then |batch| else first) ==> batch[i] in stored
    ensures stored + SetOf(inserted) == stored + SetOf(batch)
  {
    forall h | h in batch && h !in stored
      ensures h in inserted
    {
      var i :| 0 <= i < |batch| && batch[i] == h;
      assert first != -1 && first <= i && inserted[i - first] == h;
    }
  }

  lemma SumsStart(stored: set<Header>, td: map<Header, nat>, batch: seq<Header>)
    requires SumsKept(stored, td) && Attached(stored, batch)
    ensures SumsKept(stored + SetOf(batch[..0]), td)
    ensures batch[0].parent.header in td && td[batch[0].parent.header] == TotalDifficulty(batch[0].parent.header)
  {
    assert stored + SetOf(batch[..0]) == stored;
  }

  lemma SumsNext(stored: set<Header>, batch: seq<Header>, i: nat, td: map<Header, nat>, newTD: nat)
    requires i < |batch| && SumsKept(stored + SetOf(batch[..i]), td) && newTD == TotalDifficulty(batch[i])
    ensures SumsKept(stored + SetOf(batch[..i + 1]), td[batch[i] := newTD])
    ensures batch[i] in stored ==> SumsKept(stored + SetOf(batch[..i + 1]), td)
  {
    assert batch[..i + 1] == batch[..i] + [batch[i]];
    assert stored + SetOf(batch[..i + 1]) == stored + SetOf(batch[..i]) + {batch[i]};
    assert batch[i] in stored ==> stored + SetOf(batch[..i + 1]) == stored + SetOf(batch[..i]);
  }

  lemma KnownParent(stored: set<Header>, td: map<Header, nat>, batch: seq<Header>)
    requires SumsKept(stored, td) && batch != []
    ensures Attached(stored, batch) <==> batch[0].parent.H? && batch[0].parent.header in td
  {
  }

  lemma SumOf(stored: set<Header>, td: map<Header, nat>, h: Header)
    requires SumsKept(stored, td) && h in stored
    ensures h in td && td[h] == TotalDifficulty(h)
  {
  }

  /** The known headers of a batch are the ones before `first`. */
  lemma Counted(genesis: Header, before: set<Header>, stored: set<Header>, batch: seq<Header>, first: int)
    requires Rooted(genesis, before) && Validated(before, batch) && Attached(before, batch)
    requires stored == before + SetOf(batch)
    requires -1 <= first < |batch| && (first != -1 ==> batch[first] !in before)
    requires forall i :: 0 <= i < (if first == -1 then |batch| else first) ==> batch[i] in before
    ensures forall i :: 0 <= i < |batch| ==> (batch[i] in before <==> first == -1 || i < first)
    ensures Validated(stored, batch) && Attached(stored, batch) && (SetOf(batch) <= before <==> first == -1)
    ensures batch[|batch| - 1] in stored
  {
    forall i | 0 <= i < |batch|
      ensures batch[i] in before <==> first == -1 || i < first
    {
      if first != -1 && first <= i { UnknownStays(genesis, before, batch, first, i); }
    }
    assert batch[|batch| - 1] in SetOf(batch);
    assert first != -1 ==> batch[first] in SetOf(batch);
  }

  /** A batch on top of the head is all new. */
  lemma FirstChild(stored: set<Header>, batch: seq<Header>, current: Header, first: int)
    requires Topmost(stored, current) && batch != [] && -1 <= first < |batch|
    requires forall i :: 0 <= i < (if first == -1 then |batch| else first) ==> batch[i] in stored
    ensures batch[0].parent == H(current) ==> first == 0
  {
  }

  /** After the head moved: right unless nothing new was written for a new head. */
  lemma Moved(genesis: Header, before: set<Header>, stored: set<Header>, batch: seq<Header>, first: int,
              canonical: Index, index: Index, current: Header)
    requires Rooted(genesis, before) && Positive(before) && current in before && Topmost(before, current)
    requires Validated(before, batch) && Attached(before, batch) && stored == before + SetOf(batch)
    requires -1 <= first < |batch| && (first != -1 ==> batch[first] !in before)
    requires first == -1 <==> SetOf(batch) <= before
    requires CanonExact(canonical, current) && TotalDifficulty(Last(batch)) >= TotalDifficulty(current)
    requires first != -1 ==> CanonExact(index, Last(batch))
    requires first == -1 ==> SameAt(index, canonical, Last(batch).number)
    requires first == -1 && Last(batch) == current ==> CanonExact(index, current)
    ensures Last(batch) in stored
    ensures CanonExact(index, Last(batch)) && Topmost(stored, Last(batch)) <==> first != -1 || Last(batch) == current
  {
    hide Rooted, Positive, CanonExact, Topmost, Validated, SameAt;
    assert batch[|batch| - 1] in SetOf(batch);
    if first != -1 {
      NewHead(genesis, before, batch, first);
    } else {
      assert stored == before;
      if Last(batch) != current { StaysStale(genesis, before, canonical, index, current, Last(batch)); }
    }
  }

  // ----- rewinding -----

  function HeadersAt(stored: set<Header>, n: nat): set<Header> { set h | h in stored && h.number == n }

  function Numbered(stored: set<Header>, nums: set<nat>): set<Header> { set h | h in stored && h.number in nums }

  ghost function From(stored: set<Header>, n: nat): set<Header> { set h | h in stored && h.number >= n }

  /** Add every header of the given numbers to the batch of deletions. */
  method Collect(stored: set<Header>, nums: set<nat>, header: Header, gone0: set<Header>, cut0: set<nat>)
    returns (gone: set<Header>, cut: set<nat>)
    requires forall n :: n in nums ==> HeadersAt(stored, n) != {}
    requires gone0 == Numbered(stored, cut0)
    ensures cut == cut0 + nums && gone == Numbered(stored, cut)
  {
    gone, cut := gone0, cut0;
    var todo := nums;
    while todo != {}
      invariant todo <= nums && cut == cut0 + (nums - todo) && gone == Numbered(stored, cut)
      decreases |todo|
    {
      var n :| n in todo;
      var hashes := HeadersAt(stored, n);
      if hashes == {} { hashes := {header}; }
      gone, cut := gone + hashes, cut + {n};
      todo := todo - {n};
    }
  }

  lemma Fewer(stored: set<Header>, n: nat)
    requires HeadersAt(stored, n) != {}
    ensures |From(stored, n + 1)| < |From(stored, n)|
  {
    var h :| h in HeadersAt(stored, n);
    var low, high := From(stored, n), From(stored, n + 1);
    assert high <= low - {h};
    Smaller(high, low - {h});
  }

  lemma {:induction false} Smaller<T>(a: set<T>, b: set<T>)
    requires a <= b
    ensures |a| <= |b|
  {
    if a != {} {
      var x :| x in a;
      Smaller(a - {x}, b - {x});
    }
  }

  lemma {:induction false} PathStored(genesis: Header, stored: set<Header>, h: Header, n: nat)
    requires Rooted(genesis, stored) && h in stored && n <= h.number
    ensures At(h, n) in stored
  {
    if n < h.number { PathStored(genesis, stored, h.parent.header, n); }
  }

  /** Stored heights have no holes. */
  lemma NoHoles(genesis: Header, stored: set<Header>, k: nat, n: nat)
    requires Rooted(genesis, stored) && HeadersAt(stored, n) != {} && k <= n
    ensures HeadersAt(stored, k) != {}
  {
    var h :| h in HeadersAt(stored, n);
    PathStored(genesis, stored, h, k);
    assert At(h, k) in HeadersAt(stored, k);
  }

  lemma NoneFurther(genesis: Header, stored: set<Header>, k: nat)
    requires Rooted(genesis, stored) && HeadersAt(stored, k) == {}
    ensures forall n: nat :: n >= k ==> HeadersAt(stored, n) == {}
  {
    forall n: nat | n >= k
      ensures HeadersAt(stored, n) == {}
    {
      if HeadersAt(stored, n) != {} { NoHoles(genesis, stored, k, n); }
    }
  }

  lemma OnOwnPath(genesis: Header, stored: set<Header>, h: Header)
    requires Rooted(genesis, stored) && h in stored
    ensures IsChain(h) && At(h, h.number) == h && h in HeadersAt(stored, h.number)
  {
  }

  lemma NextDown(genesis: Header, stored: set<Header>, top: Header, h: Header)
    requires Rooted(genesis, stored) && h in stored && h.number > 0
    requires IsChain(top) && h.number <= top.number && At(top, h.number) == h
    ensures h.parent == H(At(top, h.number - 1)) && h.parent.header in stored && h in HeadersAt(stored, h.number)
  {
    AtParent(top, h.number);
  }

  lemma NothingGone(stored: set<Header>, td: map<Header, nat>, canonical: Index, gone: set<Header>, cut: set<nat>)
    requires gone == {} && cut == {}
    ensures stored - gone == stored && td - gone == td && canonical - cut == canonical && gone == Numbered(stored, cut)
  {
  }

  /** Deleting every number above n that has a header leaves the path up to n and every fork up to n. */
  lemma Rewound(genesis: Header, stored: set<Header>, td: map<Header, nat>, canonical: Index, top: Header, n: nat,
                cut: set<nat>)
    requires Rooted(genesis, stored) && Positive(stored) && SumsKept(stored, td) && genesis.number == 0
    requires top in stored && CanonExact(canonical, top) && n <= top.number
    requires forall k: nat :: k in cut <==> k > n && HeadersAt(stored, k) != {}
    ensures var left := stored - Numbered(stored, cut);
            && left == (set h | h in stored && h.number <= n)
            && Rooted(genesis, left) && Positive(left) && SumsKept(left, td - Numbered(stored, cut))
            && CanonExact(canonical - cut, At(top, n)) && Topmost(left, At(top, n)) && At(top, n) in left
  {
    var left := stored - Numbered(stored, cut);
    LeftBelow(stored, n, cut);
    PathStored(genesis, stored, top, n);
    IndexBelow(genesis, stored, canonical, top, n, cut);
  }

  lemma LeftBelow(stored: set<Header>, n: nat, cut: set<nat>)
    requires forall k: nat :: k in cut <==> k > n && HeadersAt(stored, k) != {}
    ensures stored - Numbered(stored, cut) == set h | h in stored && h.number <= n
  {
    forall h | h in stored
      ensures h.number in cut <==> h.number > n
    {
      assert h in HeadersAt(stored, h.number);
    }
  }

  lemma IndexBelow(genesis: Header, stored: set<Header>, canonical: Index, top: Header, n: nat, cut: set<nat>)
    requires Rooted(genesis, stored) && top in stored && CanonExact(canonical, top) && n <= top.number
    requires forall k: nat :: k in cut <==> k > n && HeadersAt(stored, k) != {}
    ensures CanonExact(canonical - cut, At(top, n))
  {
    forall k: nat
      ensures k in canonical - cut <==> k <= n
      ensures k <= n ==> (canonical - cut)[k] == H(At(At(top, n), k))
    {
      if k <= n {
        AtAt(top, n, k);
      } else if k <= top.number {
        PathStored(genesis, stored, top, k);
        assert At(top, k) in HeadersAt(stored, k);
      }
    }
  }

  // ----- ancestors -----

  /** The canonical chain passes through the ancestor of h at height n. */
  ghost predicate OnPath(current: Header, h: Header, n: int)
    requires IsChain(current) && IsChain(h)
  {
    0 <= n <= h.number && n <= current.number && At(h, n) == At(current, n)
  }

  lemma Climb(genesis: Header, stored: set<Header>, h: Header, k: nat)
    requires Rooted(genesis, stored) && h in stored && k <= h.number
    ensures IsChain(h) && At(h, h.number - k) in stored && Up(H(h), k) == H(At(h, h.number - k))
  {
    PathStored(genesis, stored, h, h.number - k);
    UpIsAt(h, k);
  }

  lemma OnCanon(current: Header, n: nat, k: nat)
    requires IsChain(current) && k <= n <= current.number
    ensures Up(H(At(current, n)), k) == H(At(current, n - k))
  {
    UpIsAt(At(current, n), k);
    AtAt(current, n, n - k);
  }

  lemma Shortcut(current: Header, h: Header, n: nat, left: nat)
    requires IsChain(current) && IsChain(h) && OnPath(current, h, n)
    ensures left <= n ==> OnPath(current, h, n - left)
  {
    if left <= n { MeetAgree(current, h, n, n - left); }
  }
}
