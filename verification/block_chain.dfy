/** BlockChain: moving the head block between branches, with the canonical index and the transaction lookup index. */
module BlockChains {
  import opened Headers
  import opened CanonicalIndexes
  import opened HeaderChains
  import opened Transactions

  // ----- finding the two branches -----

  datatype Fork = InvalidOldChain | InvalidNewChain | Fork(oldChain: seq<Header>, newChain: seq<Header>, common: Header)

  /** The blocks from h down to the one just above height m, highest first. */
  function Branch(h: Header, m: nat): seq<Header>
    requires IsChain(h)
  {
    if h.number <= m then [] else [h] + Branch(h.parent.header, m)
  }

  /** A branch lists exactly the ancestors above m, by falling number. */
  lemma {:induction false} BranchAt(h: Header, m: nat)
    requires IsChain(h)
    ensures |Branch(h, m)| == if h.number <= m then 0 else h.number - m
    ensures forall i :: 0 <= i < |Branch(h, m)| ==> Branch(h, m)[i] == At(h, h.number - i)
  {
    if h.number > m { BranchAt(h.parent.header, m); }
  }

  lemma {:induction false} BranchGrow(h: Header, n: nat)
    requires IsChain(h) && 0 < n <= h.number
    ensures Branch(h, n - 1) == Branch(h, n) + [At(h, n)]
  {
    if n < h.number {
      BranchGrow(h.parent.header, n);
    } else {
      assert Branch(h, n - 1) == [h] + Branch(h.parent.header, n - 1);
    }
  }

  function GetBlock(blocks: set<Header>, hash: Hash): Option<Header> {
    if hash.H? && hash.header in blocks then Some(hash.header) else None
  }

  /** Every ancestor of h from height m up is in the database. */
  ghost predicate Reaches(blocks: set<Header>, h: Header, m: nat)
    requires IsChain(h) && m <= h.number
  {
    forall k: nat :: m <= k < h.number ==> At(h, k) in blocks
  }

  /** The branches meet at height m and the database holds both down to there. */
  ghost predicate Meets(blocks: set<Header>, a: Header, b: Header, m: nat)
    requires IsChain(a) && IsChain(b)
  {
    m <= a.number && m <= b.number && At(a, m) == At(b, m) && Reaches(blocks, a, m) && Reaches(blocks, b, m)
  }

  /** Follow parents down to height n, as long as they are found. */
  method WalkDown(blocks: set<Header>, h: Header, n: nat) returns (chain: seq<Header>, b: Option<Header>)
    requires IsChain(h) && n <= h.number
    ensures b.Some? <==> Reaches(blocks, h, n)
    ensures b.Some? ==> b.value == At(h, n) && chain == Branch(h, n)
  {
    chain, b := [], Some(h);
    while b.Some? && b.value.number != n
      invariant b.Some? ==> n <= b.value.number <= h.number && b.value == At(h, b.value.number)
      invariant b.Some? ==> chain == Branch(h, b.value.number) && Reaches(blocks, h, b.value.number)
      invariant b.None? ==> !Reaches(blocks, h, n)
      decreases if b.Some? then b.value.number + 1 else 0
    {
      BranchGrow(h, b.value.number);
      AtParent(h, b.value.number);
      chain := chain + [b.value];
      b := GetBlock(blocks, b.value.parent);
    }
  }

  /** From height k up the two branches differ. */
  ghost predicate Apart(a: Header, b: Header, k: nat)
    requires IsChain(a) && IsChain(b)
  {
    forall n: nat :: k <= n && n <= a.number && n <= b.number ==> At(a, n) != At(b, n)
  }

  /** Branches that differ from k up and cannot be followed below k do not meet in the database. */
  lemma NoMeet(blocks: set<Header>, a: Header, b: Header, k: nat)
    requires IsChain(a) && IsChain(b) && k <= a.number && k <= b.number && Apart(a, b, k)
    requires k > 0 ==> !Reaches(blocks, a, k - 1) || !Reaches(blocks, b, k - 1)
    ensures forall m: nat :: !Meets(blocks, a, b, m)
  {
    forall m: nat
      ensures !Meets(blocks, a, b, m)
    {
      if m < k {
        assert Reaches(blocks, a, m) ==> Reaches(blocks, a, k - 1);
        assert Reaches(blocks, b, m) ==> Reaches(blocks, b, k - 1);
      }
    }
  }

  /** The branches of two blocks above their highest common ancestor, if the database can follow both down to one. */
  method FindFork(blocks: set<Header>, oldBlock: Header, newBlock: Header) returns (r: Fork)
    requires IsChain(oldBlock) && IsChain(newBlock)
    ensures r.Fork? <==> exists m: nat :: Meets(blocks, oldBlock, newBlock, m)
    ensures r.Fork? ==>
              && Meets(blocks, oldBlock, newBlock, r.common.number) && r.common == At(oldBlock, r.common.number)
              && Apart(oldBlock, newBlock, r.common.number + 1)
              && r.oldChain == Branch(oldBlock, r.common.number) && r.newChain == Branch(newBlock, r.common.number)
  {
    hide Reaches, IsChain;
    var oldChain, newChain: seq<Header>, o, n := [], [], Some(oldBlock), Some(newBlock);
    HereAlready(blocks, oldBlock);
    HereAlready(blocks, newBlock);
    if oldBlock.number > newBlock.number {
      oldChain, o := WalkDown(blocks, oldBlock, newBlock.number);
    } else {
      newChain, n := WalkDown(blocks, newBlock, oldBlock.number);
    }
    if o.None? { TooShort(blocks, oldBlock, newBlock, newBlock.number); return InvalidOldChain; }
    if n.None? { TooShort(blocks, oldBlock, newBlock, oldBlock.number); return InvalidNewChain; }
    var a, b := o.value, n.value;
    while a != b
      invariant a.number == b.number <= oldBlock.number && b.number <= newBlock.number
      invariant a == At(oldBlock, a.number) && b == At(newBlock, a.number)
      invariant Reaches(blocks, oldBlock, a.number) && Reaches(blocks, newBlock, a.number)
      invariant Apart(oldBlock, newBlock, a.number + 1)
      invariant oldChain == Branch(oldBlock, a.number) && newChain == Branch(newBlock, a.number)
      decreases a.number
    {
      assert Apart(oldBlock, newBlock, a.number);
      oldChain, newChain := oldChain + [a], newChain + [b];
      HereAlready(blocks, a);
      if a.number > 0 { StepBack(blocks, oldBlock, a.number); StepBack(blocks, newBlock, a.number); }
      o := GetBlock(blocks, a.parent);
      if o.None? { NoMeet(blocks, oldBlock, newBlock, a.number); return InvalidOldChain; }
      n := GetBlock(blocks, b.parent);
      if n.None? { NoMeet(blocks, oldBlock, newBlock, a.number); return InvalidNewChain; }
      a, b := o.value, n.value;
    }
    assert Meets(blocks, oldBlock, newBlock, a.number);
    r := Fork(oldChain, newChain, a);
  }

  lemma HereAlready(blocks: set<Header>, h: Header)
    requires IsChain(h)
    ensures At(h, h.number) == h && Reaches(blocks, h, h.number) && Branch(h, h.number) == []
    ensures h.number == 0 ==> h.parent == ZeroHash
  {
  }

  lemma TooShort(blocks: set<Header>, a: Header, b: Header, k: nat)
    requires IsChain(a) && IsChain(b) && (k == a.number <= b.number || k == b.number <= a.number)
    requires !Reaches(blocks, a, k) || !Reaches(blocks, b, k)
    ensures forall m: nat :: !Meets(blocks, a, b, m)
  {
    forall m: nat | m <= k
      ensures !Meets(blocks, a, b, m)
    {
      assert Reaches(blocks, a, m) ==> Reaches(blocks, a, k);
      assert Reaches(blocks, b, m) ==> Reaches(blocks, b, k);
    }
  }

  lemma StepBack(blocks: set<Header>, h: Header, n: nat)
    requires IsChain(h) && 0 < n <= h.number && Reaches(blocks, h, n)
    ensures At(h, n).parent == H(At(h, n - 1)) && Branch(h, n - 1) == Branch(h, n) + [At(h, n)]
    ensures Reaches(blocks, h, n - 1) <==> At(h, n - 1) in blocks
  {
    AtParent(h, n);
    BranchGrow(h, n);
  }

  // ----- the transaction lookup index -----

  type Lookup = map<TxId, nat>

  /** Transaction t is in the block of height n on the path of head. */
  ghost predicate Mined(head: Header, t: TxId, n: nat)
    requires IsChain(head)
  {
    n <= head.number && t in At(head, n).txs
  }

  ghost predicate MinedIn(head: Header, t: TxId, lo: nat, hi: nat)
    requires IsChain(head)
  {
    exists n: nat :: lo < n <= hi && Mined(head, t, n)
  }

  /** No transaction is in two blocks of one chain: nonces see to that. */
  ghost predicate Unrepeated(head: Header)
    requires IsChain(head)
  {
    forall t: TxId, n: nat, m: nat :: Mined(head, t, n) && Mined(head, t, m) ==> n == m
  }

  /** The index maps a transaction to a number iff the block of that height on the path of head contains it. */
  ghost predicate LookupExact(lookup: Lookup, head: Header) {
    IsChain(head) && forall t: TxId, n: nat :: (t in lookup && lookup[t] == n) <==> Mined(head, t, n)
  }

  ghost predicate SameEntry(lookup: Lookup, base: Lookup, t: TxId) {
    (t in lookup <==> t in base) && (t in lookup ==> lookup[t] == base[t])
  }

  /** The entries of one block were written. */
  ghost predicate Indexed(lookup: Lookup, base: Lookup, block: Header) {
    forall t: TxId :: if t in block.txs then t in lookup && lookup[t] == block.number else SameEntry(lookup, base, t)
  }

  /** The entries of the blocks of head from lo + 1 to hi were written. */
  ghost predicate Wrote(lookup: Lookup, base: Lookup, head: Header, lo: nat, hi: nat)
    requires IsChain(head)
  {
    && (forall t: TxId, n: nat :: lo < n <= hi && Mined(head, t, n) ==> t in lookup && lookup[t] == n)
    && (forall t: TxId :: !MinedIn(head, t, lo, hi) ==> SameEntry(lookup, base, t))
  }

  lemma WroteNext(next: Lookup, lookup: Lookup, base: Lookup, head: Header, lo: nat, hi: nat)
    requires IsChain(head) && lo <= hi < head.number && Unrepeated(head)
    requires Wrote(lookup, base, head, lo, hi) && Indexed(next, lookup, At(head, hi + 1))
    ensures Wrote(next, base, head, lo, hi + 1)
  {
    forall t: TxId, n: nat | lo < n <= hi + 1 && Mined(head, t, n)
      ensures t in next && next[t] == n
    {
      assert Mined(head, t, hi + 1) <==> t in At(head, hi + 1).txs;
    }
    forall t: TxId | !MinedIn(head, t, lo, hi + 1)
      ensures SameEntry(next, base, t)
    {
      assert !MinedIn(head, t, lo, hi) && !Mined(head, t, hi + 1);
    }
  }

  /** What is gone after a reorg: the transactions of the old branch that the new one did not bring back. */
  ghost predicate Purged(next: Lookup, lookup: Lookup, oldBlock: Header, newBlock: Header, c: nat, hi: nat)
    requires IsChain(oldBlock) && IsChain(newBlock)
  {
    forall t: TxId ::
      if MinedIn(oldBlock, t, c, oldBlock.number) && !MinedIn(newBlock, t, c, hi) then t !in next
      else SameEntry(next, lookup, t)
  }

  /** Writing the new branch up to hi and purging the old one makes the index that of the new branch at hi. */
  lemma LookupMoved(next: Lookup, lookup: Lookup, base: Lookup, oldBlock: Header, newBlock: Header, c: nat, hi: nat)
    requires LookupExact(base, oldBlock) && IsChain(newBlock) && Unrepeated(newBlock)
    requires c <= oldBlock.number && c <= hi <= newBlock.number && At(oldBlock, c) == At(newBlock, c)
    requires Wrote(lookup, base, newBlock, c, hi) && Purged(next, lookup, oldBlock, newBlock, c, hi)
    ensures LookupExact(next, At(newBlock, hi))
  {
    forall t: TxId, n: nat
      ensures (t in next && next[t] == n) <==> Mined(At(newBlock, hi), t, n)
    {
      if n <= hi { AtAt(newBlock, hi, n); }
      if n <= c { MeetAgree(oldBlock, newBlock, c, n); }
      EntryMoved(next, lookup, base, oldBlock, newBlock, c, hi, t);
      assert Mined(At(newBlock, hi), t, n) <==> n <= hi && Mined(newBlock, t, n);
    }
  }

  lemma EntryMoved(next: Lookup, lookup: Lookup, base: Lookup, oldBlock: Header, newBlock: Header, c: nat, hi: nat,
                   t: TxId)
    requires LookupExact(base, oldBlock) && IsChain(newBlock) && Unrepeated(newBlock)
    requires c <= oldBlock.number && c <= hi <= newBlock.number && At(oldBlock, c) == At(newBlock, c)
    requires Wrote(lookup, base, newBlock, c, hi) && Purged(next, lookup, oldBlock, newBlock, c, hi)
    ensures forall n: nat :: n <= hi && Mined(newBlock, t, n) ==> t in next && next[t] == n
    ensures t in next ==> next[t] <= hi && Mined(newBlock, t, next[t])
  {
    if n: nat :| c < n <= hi && Mined(newBlock, t, n) {
      assert SameEntry(next, lookup, t);
    } else {
      assert SameEntry(lookup, base, t);
      if n: nat :| n <= c && Mined(newBlock, t, n) {
        MeetAgree(oldBlock, newBlock, c, n);
        assert Mined(oldBlock, t, n) && base[t] == n;
      } else if t in base {
        MeetAgree(oldBlock, newBlock, c, if base[t] <= c then base[t] else c);
        assert Mined(oldBlock, t, base[t]);
      }
    }
  }

  /** Extending the head by one block extends the index by the block's transactions. */
  lemma LookupExtended(next: Lookup, lookup: Lookup, parent: Header, block: Header)
    requires LookupExact(lookup, parent) && IsChain(block) && Unrepeated(block) && Indexed(next, lookup, block)
    requires block == parent || (block.number > 0 && block.parent == H(parent))
    ensures LookupExact(next, block)
  {
    forall t: TxId, n: nat
      ensures (t in next && next[t] == n) <==> Mined(block, t, n)
    {
      assert Mined(block, t, block.number) <==> t in block.txs;
      assert n < block.number ==> (Mined(block, t, n) <==> Mined(parent, t, n));
      if t in next && t !in block.txs { assert Mined(parent, t, next[t]); }
    }
  }

  /** The transactions of a list of blocks. */
  method Gather(chain: seq<Header>) returns (txs: seq<TxId>)
    ensures forall t: TxId :: t in txs <==> exists i :: 0 <= i < |chain| && t in chain[i].txs
  {
    txs := [];
    for j := 0 to |chain|
      invariant forall t: TxId :: t in txs <==> exists i :: 0 <= i < j && t in chain[i].txs
    {
      txs := txs + chain[j].txs;
    }
  }

  /** The elements of a that are not in b, in the order and as often as in a. */
  function Minus(a: seq<TxId>, b: seq<TxId>): (r: seq<TxId>)
    ensures forall t: TxId :: t in r <==> t in a && t !in b
  {
    if a == [] then [] else
      var n := |a| - 1;
      assert a == a[..n] + [a[n]];
      Minus(a[..n], b) + if a[n] in b then [] else [a[n]]
  }

  method TxDifference(a: seq<TxId>, b: seq<TxId>) returns (keep: seq<TxId>)
    ensures keep == Minus(a, b)
  {
    keep := [];
    var remove: set<TxId> := {};
    for i := 0 to |b|
      invariant forall t: TxId :: t in remove <==> t in b[..i]
    {
      remove := remove + {b[i]};
    }
    assert b[..|b|] == b;
    for i := 0 to |a|
      invariant keep == Minus(a[..i], b)
    {
      assert a[..i + 1][..i] == a[..i];
      if a[i] !in remove { keep := keep + [a[i]]; }
    }
    assert a[..|a|] == a;
  }

  method DeleteEntries(lookup: Lookup, txs: seq<TxId>) returns (next: Lookup)
    ensures forall t: TxId :: if t in txs then t !in next else SameEntry(next, lookup, t)
  {
    next := lookup;
    for i := 0 to |txs|
      invariant forall t: TxId :: if t in txs[..i] then t !in next else SameEntry(next, lookup, t)
    {
      next := next - {txs[i]};
    }
  }

  lemma BranchTxs(h: Header, c: nat, t: TxId)
    requires IsChain(h)
    ensures (exists i :: 0 <= i < |Branch(h, c)| && t in Branch(h, c)[i].txs) <==> MinedIn(h, t, c, h.number)
  {
    BranchAt(h, c);
    if n: nat :| c < n <= h.number && Mined(h, t, n) {
      assert t in Branch(h, c)[h.number - n].txs;
    }
    if i :| 0 <= i < |Branch(h, c)| && t in Branch(h, c)[i].txs {
      assert Mined(h, t, h.number - i);
    }
  }

  class BlockChain {
    const genesis: Header
    var blocks: set<Header>
    var td: map<Header, nat>
    var canonical: Index
    var lookup: Lookup
    var currentBlock: Header
    var currentHeader: Header
    var currentFastBlock: Header

    ghost predicate Database()
      reads this
    {
      && genesis.number == 0 && Rooted(genesis, blocks) && Positive(blocks) && SumsKept(blocks, td)
      && currentBlock in blocks && (forall h :: h in blocks ==> Unrepeated(h))
    }

    /** The three heads agree. */
    ghost predicate OneHead()
      reads this
    {
      currentHeader == currentBlock && currentFastBlock == currentBlock
    }

    ghost predicate Inv()
      reads this
    {
      Database() && OneHead() && CanonExact(canonical, currentBlock) && LookupExact(lookup, currentBlock)
    }

    constructor (genesis: Header)
      requires genesis.number == 0 && genesis.parent == ZeroHash
      ensures Inv() && currentBlock == genesis && blocks == {genesis}
    {
      this.genesis, blocks, td := genesis, {genesis}, map[genesis := genesis.difficulty];
      canonical, lookup := map[0 := H(genesis)], map t | t in genesis.txs :: 0;
      currentBlock, currentHeader, currentFastBlock := genesis, genesis, genesis;
    }

    /** Make a block the head. The header and fast heads follow when the block was not canonical yet. */
    method WriteHeadBlock(block: Header)
      modifies this`canonical, this`lookup, this`currentBlock, this`currentHeader, this`currentFastBlock
      ensures canonical == old(canonical)[block.number := H(block)] && Indexed(lookup, old(lookup), block)
      ensures currentBlock == block
      ensures if block.number in old(canonical) && old(canonical)[block.number] == H(block)
              then currentHeader == old(currentHeader) && currentFastBlock == old(currentFastBlock)
              else currentHeader == block && currentFastBlock == block
    {
      var updateHeads := !(block.number in canonical && canonical[block.number] == H(block));
      canonical := canonical[block.number := H(block)];
      for i := 0 to |block.txs|
        modifies this`lookup
        invariant forall t: TxId :: if t in block.txs[..i] then t in lookup && lookup[t] == block.number
                                    else SameEntry(lookup, old(lookup), t)
      {
        lookup := lookup[block.txs[i] := block.number];
      }
      if updateHeads { currentHeader, currentFastBlock := block, block; }
      currentBlock := block;
    }

    /** The block up to which reorg rewrites history on the way to `block`: its parent, or, for an ancestor of the head,
        the block itself. */
    ghost function Base(block: Header): Header
      requires IsChain(block) && IsChain(currentBlock)
      reads this
    {
      if block.number == 0 || IsAncestor(block, currentBlock) then block else block.parent.header
    }

    /** Make every block of the new branch but its top the head in turn, lowest first. */
    method WriteBranch(block: Header, newChain: seq<Header>, ghost c: nat) returns (addedTxs: seq<TxId>)
      requires IsChain(block) && Unrepeated(block) && OneHead() && CanonExact(canonical, currentBlock)
      requires c <= block.number && newChain == Branch(block, c) && Apart(currentBlock, block, c + 1)
      modifies this`canonical, this`lookup, this`currentBlock, this`currentHeader, this`currentFastBlock
      ensures var hi := Top(block, c);
              && Spans(canonical, block, c + 1, hi + 1) && SameOutside(canonical, old(canonical), c + 1, hi + 1)
              && Wrote(lookup, old(lookup), block, c, hi)
              && (forall t: TxId :: t in addedTxs <==> MinedIn(block, t, c, hi))
              && OneHead() && currentBlock == if hi > c then At(block, hi) else old(currentBlock)
    {
      hide Spans, SameOutside, Wrote, Indexed, MinedIn, Unrepeated, CanonExact, Apart;
      ghost var head, base, hi: nat := currentBlock, canonical, c;
      BranchAt(block, c);
      addedTxs := [];
      NothingWritten(canonical, lookup, block, c);
      var i := |newChain| - 1;
      while i >= 1
        invariant c <= hi && if newChain == [] then hi == c else 0 <= i == block.number - 1 - hi
        invariant Spans(canonical, block, c + 1, hi + 1) && SameOutside(canonical, base, c + 1, hi + 1)
        invariant Wrote(lookup, old(lookup), block, c, hi)
        invariant forall t: TxId :: t in addedTxs <==> MinedIn(block, t, c, hi)
        invariant OneHead() && currentBlock == if hi > c then At(block, hi) else head
      {
        ghost var was := lookup;
        SpanPut(canonical, base, block, c + 1, hi + 1);
        OffCanon(canonical, base, head, block, c, hi + 1);
        WriteHeadBlock(newChain[i]);
        WroteNext(lookup, was, old(lookup), block, c, hi);
        MoreMined(block, c, hi);
        addedTxs := addedTxs + newChain[i].txs;
        i, hi := i - 1, hi + 1;
      }
    }

    /** Move the indexes from the branch of the head to the branch of `block`, leaving `block` itself to be written. */
    method Reorg(block: Header) returns (r: Fork)
      requires Inv() && block in blocks
      modifies this`canonical, this`lookup, this`currentBlock, this`currentHeader, this`currentFastBlock
      ensures r.Fork? && Database() && OneHead() && CanonExact(canonical, currentBlock)
      ensures Apart(old(currentBlock), block, r.common.number + 1) && IsAncestor(r.common, old(currentBlock))
      ensures IsAncestor(r.common, block)
      ensures r.oldChain == Branch(old(currentBlock), r.common.number) && r.newChain == Branch(block, r.common.number)
      ensures LookupExact(lookup, old(Base(block)))
      ensures currentBlock == if IsAncestor(old(Base(block)), old(currentBlock)) then old(currentBlock)
              else old(Base(block))
    {
      hide Rooted, Positive, SumsKept, CanonExact, LookupExact, Unrepeated, Spans, SameOutside, Wrote, Indexed, MinedIn;
      hide Purged;
      hide Minus, Branch, Apart;
      ghost var head, base := currentBlock, canonical;
      Connected(genesis, blocks, currentBlock, block);
      r := FindFork(blocks, currentBlock, block);
      ghost var c := r.common.number;
      ghost var hi: nat := Top(block, c);
      var deletedTxs := Gather(r.oldChain);
      var addedTxs := WriteBranch(block, r.newChain, c);
      ghost var written := lookup;
      var useless := TxDifference(deletedTxs, addedTxs);
      lookup := DeleteEntries(lookup, useless);
      Emptied(lookup, written, head, block, c, hi, r.oldChain, deletedTxs, addedTxs, useless);
      LookupMoved(lookup, written, old(lookup), head, block, c, hi);
      var number := currentBlock.number;
      ghost var full := canonical;
      Filled(base, canonical, head, block, c, hi);
      canonical := CutAbove(canonical, number + 1, if head.number > hi then head.number else hi);
      CutExact(base, full, canonical, head, block, c, hi, currentBlock);
      BaseTop(head, block, c);
      PathStored(genesis, blocks, block, hi);
    }

    /** The block is lower than the head and sits on the canonical chain: moving to it deletes no number above it. */
    predicate Shadowed(block: Header)
      requires IsChain(block) && IsChain(currentBlock)
      reads this
    {
      Undercuts(currentBlock, block)
    }

    /** Make a stored block the head, reorganising if it is not on top of the head. */
    method WriteKnownBlock(block: Header)
      requires Inv() && block in blocks
      modifies this`canonical, this`lookup, this`currentBlock, this`currentHeader, this`currentFastBlock
      ensures Database() && currentBlock == block && LookupExact(lookup, block)
      ensures Inv() <==> !old(Shadowed(block))
    {
      hide Rooted, Positive, SumsKept, CanonExact, LookupExact, Unrepeated, Indexed, Branch, Apart;
      ghost var head := currentBlock;
      Connected(genesis, blocks, currentBlock, block);
      if block.parent != H(currentBlock) {
        var _ := Reorg(block);
      }
      ghost var was, canon, seat, base := lookup, canonical, currentBlock, old(Base(block));
      BaseIs(head, block);
      WriteHeadBlock(block);
      LookupExtended(lookup, was, base, block);
      HeadWritten(canon, canonical, seat, block);
    }

    /** Store a block whose parent is known and make it the head if it is preferred: by total difficulty, then by lower
        number, then by not leaving a block of one's own for anything but another, then by the coin. */
    method WriteBlockWithState(block: Header, currentPreserve: bool, blockPreserve: bool, coin: bool)
      returns (status: WriteStatus)
      requires Inv() && (GetBlock(blocks, block.parent).Some? ==> Valid(block))
      modifies this
      ensures GetBlock(old(blocks), block.parent).None? ==> status == NonStat && unchanged(this)
      ensures GetBlock(old(blocks), block.parent).Some? ==>
                && Database() && blocks == old(blocks) + {block}
                && status
                   == (if old(Overtakes(block, currentPreserve, blockPreserve, coin)) then CanonStat else SideStat)
                && currentBlock == (if status == CanonStat then block else old(currentBlock))
                && LookupExact(lookup, currentBlock)
                && (Inv() <==> status == SideStat || !old(Shadowed(block)))
      // the fork choice: by the sum of difficulties, then to the lower block, then never away from a block of one's own
      // and otherwise to one of one's own or by the coin
      ensures GetBlock(old(blocks), block.parent).Some? ==>
                var sum, local := TotalDifficulty(block), TotalDifficulty(old(currentBlock));
                var number, head := block.number, old(currentBlock).number;
                && (sum > local ==> currentBlock == block)
                && (sum < local ==> currentBlock == old(currentBlock))
                && (sum == local && number < head ==> currentBlock == block)
                && (sum == local && number > head ==> currentBlock == old(currentBlock))
                && (sum == local && number == head ==>
                      currentBlock == if !currentPreserve && (blockPreserve || coin) then block else old(currentBlock))
      ensures TotalDifficulty(currentBlock) >= TotalDifficulty(old(currentBlock))
    {
      hide Rooted, Positive, SumsKept, CanonExact, LookupExact, Unrepeated;
      var parent := GetBlock(blocks, block.parent);
      if parent.None? { return NonStat; }
      SumOf(blocks, td, parent.value);
      SumOf(blocks, td, currentBlock);
      Stored(genesis, blocks, td, block, parent.value);
      var localTd, externTd := td[currentBlock], td[parent.value] + block.difficulty;
      td, blocks := td[block := externTd], blocks + {block};
      var own := !currentPreserve && (blockPreserve || coin);
      var reorg := Prefers(externTd, localTd, block.number, currentBlock.number, own);
      if reorg {
        WriteKnownBlock(block);
        status := CanonStat;
      } else {
        status := SideStat;
      }
    }

    predicate Overtakes(block: Header, currentPreserve: bool, blockPreserve: bool, coin: bool)
      reads this
    {
      Outweighs(currentBlock, block, currentPreserve, blockPreserve, coin)
    }

    ghost function Seen(): View
      reads this
    {
      View(blocks, currentBlock)
    }

    /** Any sequence of valid blocks, in any order and on any branches, up to the first that leaves stale numbers. */
    method Run(ops: seq<Arrival>) returns (n: nat)
      requires Inv()
      requires forall i :: 0 <= i < |ops| ==> Valid(ops[i].block)
      modifies this
      ensures Database() && LookupExact(lookup, currentBlock) && n <= |ops|
      // the invariant survives exactly the unbroken runs, and any other stops after the first block that breaks it
      ensures (Inv() <==> Unbroken(old(Seen()), ops)) && (Inv() <==> n == |ops|)
      ensures n < |ops| ==> Unbroken(old(Seen()), ops[..n]) && LeavesStale(ReceiveAll(old(Seen()), ops[..n]), ops[n])
      ensures Seen() == ReceiveAll(old(Seen()), if n < |ops| then ops[..n + 1] else ops)
      // so blocks that are never lower than what came before keep it, whatever the branches and the coins
      ensures NeverLower(old(currentBlock).number, ops) ==> Inv()
      ensures TotalDifficulty(currentBlock) >= TotalDifficulty(old(currentBlock))
    {
      hide TotalDifficulty, LeavesStale, ReceiveAll, Receive, Unbroken, NeverLower, LookupExact, CanonExact;
      hide BlockChain.Database;
      if NeverLower(currentBlock.number, ops) { NeverLowerUnbroken(Seen(), ops); }
      n := 0;
      ReceiveNone(old(Seen()), ops);
      while n < |ops|
        invariant n <= |ops| && Inv() && TotalDifficulty(currentBlock) >= TotalDifficulty(old(currentBlock))
        invariant Seen() == ReceiveAll(old(Seen()), ops[..n]) && Unbroken(old(Seen()), ops[..n])
      {
        ReceiveNext(old(Seen()), ops, n);
        var stale := LeavesStale(View(blocks, currentBlock), ops[n]);
        Turn(ops[n]);
        if stale { return; }
        n := n + 1;
      }
      assert ops[..|ops|] == ops;
    }

    /** One block of a run. */
    method Turn(op: Arrival)
      requires Inv() && Valid(op.block)
      modifies this
      ensures Database() && LookupExact(lookup, currentBlock) && Seen() == Receive(old(Seen()), op)
      ensures Inv() <==> !LeavesStale(old(Seen()), op)
      ensures TotalDifficulty(currentBlock) >= TotalDifficulty(old(currentBlock))
    {
      hide Rooted, Positive, SumsKept, CanonExact, LookupExact, Unrepeated, TotalDifficulty, Outweighs, Undercuts;
      HeadIsChain(genesis, blocks, currentBlock);
      var _ := WriteBlockWithState(op.block, op.currentPreserve, op.blockPreserve, op.coin);
    }
  }

  // ----- whole runs, seen from outside -----

  datatype Arrival = Arrival(block: Header, currentPreserve: bool, blockPreserve: bool, coin: bool)

  /** The block is lower than the head and its parent is on the chain of the head. */
  predicate Undercuts(head: Header, block: Header)
    requires IsChain(block) && IsChain(head)
  {
    block.number < head.number && (block.number == 0 || block.parent == H(At(head, block.number - 1)))
  }

  predicate Outweighs(head: Header, block: Header, currentPreserve: bool, blockPreserve: bool, coin: bool) {
    Prefers(TotalDifficulty(block), TotalDifficulty(head), block.number, head.number,
            !currentPreserve && (blockPreserve || coin))
  }

  /** The block is stored, becomes the head, and leaves numbers above it in the index. */
  predicate LeavesStale(v: View, op: Arrival) {
    && GetBlock(v.stored, op.block.parent).Some? && IsChain(v.head) && IsChain(op.block) && Undercuts(v.head, op.block)
    && Outweighs(v.head, op.block, op.currentPreserve, op.blockPreserve, op.coin)
  }

  /** What is stored and which block is the head after one block. */
  function Receive(v: View, op: Arrival): View {
    if GetBlock(v.stored, op.block.parent).None? then v
    else View(v.stored + {op.block},
              if Outweighs(v.head, op.block, op.currentPreserve, op.blockPreserve, op.coin) then op.block else v.head)
  }

  function ReceiveAll(v: View, ops: seq<Arrival>): View {
    if ops == [] then v else Receive(ReceiveAll(v, ops[..|ops| - 1]), ops[|ops| - 1])
  }

  /** No block of the run, when its turn comes, leaves stale numbers. */
  predicate Unbroken(v: View, ops: seq<Arrival>) {
    forall i :: 0 <= i < |ops| ==> !LeavesStale(ReceiveAll(v, ops[..i]), ops[i])
  }

  lemma ReceiveNone(v: View, ops: seq<Arrival>)
    ensures ReceiveAll(v, ops[..0]) == v && Unbroken(v, ops[..0])
  {
  }

  /** A run is unbroken as far as it goes exactly if it was before and its next block leaves nothing stale. */
  lemma ReceiveNext(v: View, ops: seq<Arrival>, i: nat)
    requires i < |ops|
    ensures ReceiveAll(v, ops[..i + 1]) == Receive(ReceiveAll(v, ops[..i]), ops[i])
    ensures Unbroken(v, ops[..i + 1]) <==> Unbroken(v, ops[..i]) && !LeavesStale(ReceiveAll(v, ops[..i]), ops[i])
    ensures Unbroken(v, ops) ==> Unbroken(v, ops[..i + 1])
  {
    hide LeavesStale, Receive;
    var upto := ops[..i + 1];
    assert upto[..i] == ops[..i];
    assert forall k :: 0 <= k < i ==> upto[..k] == ops[..k] && ops[..i][..k] == ops[..k] && ops[..i][k] == upto[k];
    assert forall k :: 0 <= k <= i ==> upto[..k] == ops[..k] && upto[k] == ops[k];
  }

  /** No block is lower than the head at the start or than a block before it. */
  predicate NeverLower(number: nat, ops: seq<Arrival>) {
    forall i :: 0 <= i < |ops| ==>
      number <= ops[i].block.number && forall j :: 0 <= j < i ==> ops[j].block.number <= ops[i].block.number
  }

  /** The head is the one at the start or one of the blocks. */
  lemma {:induction false} ReceiveHead(v: View, ops: seq<Arrival>)
    ensures var h := ReceiveAll(v, ops).head; h == v.head || exists j :: 0 <= j < |ops| && h == ops[j].block
  {
    if ops != [] {
      var front := ops[..|ops| - 1];
      ReceiveHead(v, front);
      var h := ReceiveAll(v, front).head;
      if h != v.head {
        var j :| 0 <= j < |front| && h == front[j].block;
        assert h == ops[j].block;
      }
    }
  }

  lemma NeverLowerUnbroken(v: View, ops: seq<Arrival>)
    requires NeverLower(v.head.number, ops)
    ensures Unbroken(v, ops)
  {
    forall i | 0 <= i < |ops|
      ensures !LeavesStale(ReceiveAll(v, ops[..i]), ops[i])
    {
      ReceiveHead(v, ops[..i]);
    }
  }

  /** One heavy block next to two light ones moves the head down, and the number above it stays in the index. */
  method HeavyBlockLeavesStaleNumber() returns (chain: BlockChain)
    ensures fresh(chain) && chain.Database() && LookupExact(chain.lookup, chain.currentBlock) && !chain.Inv()
  {
    hide Rooted, Positive, SumsKept, CanonExact, LookupExact, TotalDifficulty, BlockChain.Database;
    var genesis := Header(ZeroHash, 0, 1, [], 0);
    var low := Header(H(genesis), 1, 1, [], 0);
    var high, heavy := Header(H(low), 2, 1, [], 0), Header(H(genesis), 1, 5, [], 1);
    Weigh(genesis, low, heavy);
    Weigh(low, high, high);
    chain := new BlockChain(genesis);
    var _ := chain.WriteBlockWithState(low, false, false, false);
    var _ := chain.WriteBlockWithState(high, false, false, false);
    var _ := chain.WriteBlockWithState(heavy, false, false, false);
  }

  /** What block validation has established of a block. */
  ghost predicate Valid(block: Header) {
    IsChain(block) && block.number > 0 && block.difficulty > 0 && Unrepeated(block)
  }

  lemma Stored(genesis: Header, blocks: set<Header>, td: map<Header, nat>, block: Header, parent: Header)
    requires Rooted(genesis, blocks) && Positive(blocks) && SumsKept(blocks, td)
    requires parent in blocks && block.parent == H(parent) && block.number == parent.number + 1 && block.difficulty > 0
    ensures Rooted(genesis, blocks + {block}) && Positive(blocks + {block}) && IsChain(block)
    ensures SumsKept(blocks + {block}, td[block := TotalDifficulty(parent) + block.difficulty])
    ensures TotalDifficulty(block) == TotalDifficulty(parent) + block.difficulty
  {
  }

  lemma BaseIs(head: Header, block: Header)
    requires IsChain(head) && IsChain(block) && At(head, 0) == At(block, 0)
    ensures var base := if block.number == 0 || IsAncestor(block, head) then block else block.parent.header;
            && (base == block || (block.number > 0 && block.parent == H(base)))
            && (IsAncestor(block, head) && block.number > 0 ==> block.parent == H(At(head, block.number - 1)))
            && (0 < block.number < head.number && block.parent == H(At(head, block.number - 1)) ==>
                  IsAncestor(base, head))
            && (block.number == 0 ==> IsAncestor(base, head))
  {
    if IsAncestor(block, head) && block.number > 0 { AtParent(head, block.number); }
  }

  /** Writing a block over a chain that holds its parent gives the path of the block unless the chain was longer. */
  lemma HeadWritten(canonical: Index, index: Index, seat: Header, block: Header)
    requires CanonExact(canonical, seat) && IsChain(block) && index == canonical[block.number := H(block)]
    requires if block.number == 0 then At(seat, 0) == block
             else block.number <= seat.number + 1 && block.parent == H(At(seat, block.number - 1))
    ensures CanonExact(index, block) <==> block.number >= seat.number
    ensures block.number in canonical && canonical[block.number] == H(block) && block.number >= seat.number ==>
              block == seat
  {
    forall n: nat | n <= block.number
      ensures n in index && index[n] == H(At(block, n))
    {
      if n < block.number { MeetAgree(seat, block, block.number - 1, n); }
    }
    if block.number >= seat.number {
      ExactWhen(index, block);
    } else {
      assert seat.number in index;
    }
  }

  /** The height up to which a reorg from the fork height c writes the branch of block. */
  ghost function Top(block: Header, c: nat): (r: nat)
    requires c <= block.number
    ensures c <= r <= block.number
  {
    if block.number > c then block.number - 1 else c
  }

  lemma NothingWritten(canonical: Index, lookup: Lookup, block: Header, c: nat)
    requires IsChain(block) && c <= block.number
    ensures Spans(canonical, block, c + 1, c + 1) && SameOutside(canonical, canonical, c + 1, c + 1)
    ensures Wrote(lookup, lookup, block, c, c) && forall t: TxId :: !MinedIn(block, t, c, c)
  {
  }

  /** A block of the new branch is not canonical before it is written. */
  lemma OffCanon(canonical: Index, base: Index, head: Header, block: Header, c: nat, n: nat)
    requires CanonExact(base, head) && IsChain(block) && c < n <= block.number && Apart(head, block, c + 1)
    requires SameOutside(canonical, base, c + 1, n)
    ensures !(n in canonical && canonical[n] == H(At(block, n)))
  {
    assert SameAt(canonical, base, n);
  }

  lemma MoreMined(block: Header, c: nat, hi: nat)
    requires IsChain(block) && c <= hi < block.number
    ensures forall t: TxId :: MinedIn(block, t, c, hi + 1) <==> MinedIn(block, t, c, hi) || t in At(block, hi + 1).txs
  {
    forall t: TxId
      ensures MinedIn(block, t, c, hi + 1) <==> MinedIn(block, t, c, hi) || t in At(block, hi + 1).txs
    {
      assert Mined(block, t, hi + 1) <==> t in At(block, hi + 1).txs;
    }
  }

  lemma Emptied(next: Lookup, lookup: Lookup, head: Header, block: Header, c: nat, hi: nat, oldChain: seq<Header>,
                deleted: seq<TxId>, added: seq<TxId>, useless: seq<TxId>)
    requires IsChain(head) && IsChain(block) && oldChain == Branch(head, c)
    requires forall t: TxId :: t in deleted <==> exists i :: 0 <= i < |oldChain| && t in oldChain[i].txs
    requires forall t: TxId :: t in added <==> MinedIn(block, t, c, hi)
    requires forall t: TxId :: t in useless <==> t in deleted && t !in added
    requires forall t: TxId :: if t in useless then t !in next else SameEntry(next, lookup, t)
    ensures Purged(next, lookup, head, block, c, hi)
  {
    hide MinedIn, SameEntry, Branch;
    forall t: TxId
      ensures MinedIn(head, t, c, head.number) <==> t in deleted
    {
      BranchTxs(head, c, t);
    }
  }

  lemma Filled(base: Index, full: Index, head: Header, block: Header, c: nat, hi: nat)
    requires CanonExact(base, head) && IsChain(block) && c <= hi <= block.number && c <= head.number
    requires Spans(full, block, c + 1, hi + 1) && SameOutside(full, base, c + 1, hi + 1)
    ensures forall n: nat :: n in full <==> n <= if head.number > hi then head.number else hi
  {
    forall n: nat
      ensures n in full <==> n <= if head.number > hi then head.number else hi
    {
      assert !(c + 1 <= n < hi + 1) ==> SameAt(full, base, n);
    }
  }

  /** Cut above the head of the moment, the index is exactly the path of that head. */
  lemma CutExact(base: Index, full: Index, index: Index, head: Header, block: Header, c: nat, hi: nat, top: Header)
    requires CanonExact(base, head) && IsChain(block) && c <= hi <= block.number && c <= head.number
    requires At(head, c) == At(block, c) && top == if hi > c then At(block, hi) else head
    requires Spans(full, block, c + 1, hi + 1) && SameOutside(full, base, c + 1, hi + 1)
    requires NoneAbove(index, top.number) && forall n: nat :: n <= top.number ==> SameAt(index, full, n)
    ensures CanonExact(index, top)
  {
    assert IsChain(top);
    hide SameOutside, Spans, CanonExact, At, IsChain;
    forall n: nat | n <= top.number
      ensures n in index && index[n] == H(At(top, n))
    {
      assert SameAt(index, full, n);
      EntryCut(base, full, head, block, c, hi, n);
    }
    ExactWhen(index, top);
  }

  lemma EntryCut(base: Index, full: Index, head: Header, block: Header, c: nat, hi: nat, n: nat)
    requires CanonExact(base, head) && IsChain(block) && c <= hi <= block.number && c <= head.number
    requires At(head, c) == At(block, c) && n <= if hi > c then hi else head.number
    requires Spans(full, block, c + 1, hi + 1) && SameOutside(full, base, c + 1, hi + 1)
    ensures n in full && full[n] == H(At(if hi > c then At(block, hi) else head, n))
  {
    if hi > c { AtAt(block, hi, n); }
    if n <= c { MeetAgree(head, block, c, n); }
    if !(c < n <= hi) { assert SameAt(full, base, n); }
  }

  lemma BaseTop(head: Header, block: Header, c: nat)
    requires IsChain(head) && IsChain(block) && c <= head.number && c <= block.number
    requires At(head, c) == At(block, c) && Apart(head, block, c + 1)
    ensures var base := if block.number == 0 || IsAncestor(block, head) then block else block.parent.header;
            base == At(block, Top(block, c)) && (IsAncestor(base, head) <==> Top(block, c) == c)
  {
  }

  /** Any two blocks of a rooted database have a common ancestor that both can be followed to. */
  lemma Connected(genesis: Header, blocks: set<Header>, a: Header, b: Header)
    requires Rooted(genesis, blocks) && a in blocks && b in blocks
    ensures IsChain(a) && IsChain(b) && Meets(blocks, a, b, 0)
  {
    forall k: nat | k < a.number
      ensures At(a, k) in blocks
    {
      PathStored(genesis, blocks, a, k);
    }
    forall k: nat | k < b.number
      ensures At(b, k) in blocks
    {
      PathStored(genesis, blocks, b, k);
    }
  }
}
