/** ChainIndexer: sections of the canonical chain, indexed one at a time without holding the lock while the chain may be
    reorganised. Every read of the chain gets its own view of the canonical index, any map at all, so that whatever the
    chain does between two reads is covered. */
module ChainIndexers {
  import opened Headers
  import opened CanonicalIndexes
  import opened Transactions

  /** The section the update loop is working on: the head of the section before, and how far the reading has come. */
  datatype Job = Job(section: nat, oldHead: Hash, number: nat, lastHead: Hash)

  /** The reads of one verification pass, in order. */
  type Views = nat -> Index

  function ReadCanonical(view: Index, n: nat): Hash { if n in view then view[n] else ZeroHash }

  function HeadOf(heads: map<nat, Hash>, section: nat): Hash { if section in heads then heads[section] else ZeroHash }

  /** The head of the section before, which for the first section is the zero hash, as for the genesis block. */
  function HeadBefore(heads: map<nat, Hash>, section: nat): Hash {
    if section == 0 then ZeroHash else HeadOf(heads, section - 1)
  }

  /** The number of the last block of a section. */
  function LastOf(section: nat, size: nat): (n: nat)
    requires size > 0
    ensures n + 1 == section * size + size
  {
    section * size + size - 1
  }

  /** How many whole sections fit in so many blocks. */
  function Whole(blocks: nat, size: nat): (q: nat)
    requires size > 0
    ensures q * size <= blocks < q * size + size
  {
    blocks / size
  }

  lemma FewWhole(blocks: nat, size: nat, sections: nat)
    requires size > 0
    ensures Whole(blocks, size) < sections ==> blocks < sections * size
  {
    var q := Whole(blocks, size);
    if q < sections { assert (q + 1) * size <= sections * size; }
  }

  lemma Fewer(a: nat, b: nat, size: nat)
    requires a <= b
    ensures a * size <= b * size
  {
  }

  /** The stored head of a section ends a run of `size` linked headers on top of the head of the section before. */
  ghost predicate Linked(heads: map<nat, Hash>, section: nat, size: nat)
    requires size > 0
  {
    && section in heads && heads[section].H? && heads[section].header.number == LastOf(section, size)
    && Up(heads[section], size) == HeadBefore(heads, section)
  }

  ghost predicate AllLinked(heads: map<nat, Hash>, from: nat, to: nat, size: nat)
    requires size > 0
  {
    forall i: nat :: from <= i < to ==> Linked(heads, i, size)
  }

  /** Section i was taken from the canonical chain. */
  ghost predicate Agrees(heads: map<nat, Hash>, i: nat, size: nat, canonical: Index)
    requires size > 0
  {
    i in heads && LastOf(i, size) in canonical && heads[i] == canonical[LastOf(i, size)]
  }

  /** If a linked section is canonical, so is the section before it. */
  lemma CanonicalBefore(heads: map<nat, Hash>, i: nat, size: nat, canonical: Index, head: Header)
    requires size > 0 && i > 0 && Linked(heads, i, size) && HeadBefore(heads, i).H?
    requires CanonExact(canonical, head) && Agrees(heads, i, size, canonical)
    ensures Agrees(heads, i - 1, size, canonical)
  {
    var n := LastOf(i, size);
    assert n - size == LastOf(i - 1, size) by { assert i * size == (i - 1) * size + size; }
    var h := At(head, n);
    UpIsAt(h, size);
    AtAt(head, n, n - size);
  }

  /** The canonicity of the last section decides that of all: with the index the path of some head, all stored sections
      above the checkpoint, and the checkpoint itself, are canonical iff the last one is. */
  lemma {:induction false} LastDecides(heads: map<nat, Hash>, from: nat, to: nat, size: nat, canonical: Index,
                                       head: Header)
    requires size > 0 && from < to && AllLinked(heads, from, to, size) && (from > 0 ==> HeadOf(heads, from - 1).H?)
    requires CanonExact(canonical, head)
    ensures Agrees(heads, to - 1, size, canonical) <==>
              forall i: nat :: from <= i < to ==> Agrees(heads, i, size, canonical)
    ensures Agrees(heads, to - 1, size, canonical) && from > 0 ==> Agrees(heads, from - 1, size, canonical)
  {
    assert Linked(heads, to - 1, size);
    if Agrees(heads, to - 1, size, canonical) {
      if from < to - 1 {
        assert Linked(heads, to - 2, size);
        CanonicalBefore(heads, to - 1, size, canonical, head);
        LastDecides(heads, from, to - 1, size, canonical, head);
      } else if from > 0 {
        CanonicalBefore(heads, from, size, canonical, head);
      }
    }
  }

  // ----- keeping the links through changes of the stored heads -----

  /** The heads on record are linked from the checkpoint on, and none is left over above the stored count. */
  ghost predicate Chained(heads: map<nat, Hash>, stored: nat, checkpoint: nat, checkpointHead: Hash, size: nat)
    requires size > 0
  {
    && checkpoint <= stored && AllLinked(heads, checkpoint, stored, size)
    && (forall i :: i in heads ==> i < stored)
    && (checkpoint > 0 ==> checkpointHead.H? && HeadOf(heads, checkpoint - 1) == checkpointHead)
  }

  /** What a job has read so far is a linked run on top of the head it started from, and if that head was dropped in the
      meantime it is not on record any more. */
  ghost predicate Sound(job: Job, heads: map<nat, Hash>, stored: nat, checkpoint: nat, size: nat)
    requires size > 0
  {
    && checkpoint <= job.section && stored <= job.section && (job.section > 0 ==> job.oldHead.H?)
    && (stored == job.section ==> job.oldHead == HeadBefore(heads, job.section))
    && Continuous(job, size)
  }

  ghost predicate Continuous(job: Job, size: nat) {
    && job.section * size <= job.number <= job.section * size + size
    && (job.number > job.section * size ==> job.lastHead.H? && job.lastHead.header.number == job.number - 1)
    && Up(job.lastHead, job.number - job.section * size) == job.oldHead
  }

  /** Heads from `sections` on are gone; the others are as before. */
  ghost predicate CutTo(heads: map<nat, Hash>, base: map<nat, Hash>, sections: nat, stored: nat) {
    forall i: nat :: if sections <= i < stored then i !in heads else HeadSame(heads, base, i)
  }

  ghost predicate HeadSame(heads: map<nat, Hash>, base: map<nat, Hash>, i: nat) {
    (i in heads <==> i in base) && (i in heads ==> heads[i] == base[i])
  }

  /** Raising the count cuts nothing. */
  lemma NothingCut(heads: map<nat, Hash>, base: map<nat, Hash>, sections: nat, stored: nat)
    requires stored <= sections && CutTo(heads, base, sections, stored)
    ensures heads == base
  {
    assert forall i: nat :: HeadSame(heads, base, i);
  }

  lemma NoneCut(heads: map<nat, Hash>, stored: nat)
    ensures CutTo(heads, heads, stored, stored)
  {
  }

  lemma CutKeeps(heads: map<nat, Hash>, base: map<nat, Hash>, sections: nat, stored: nat, checkpoint: nat,
                 checkpointHead: Hash, size: nat)
    requires size > 0 && checkpoint <= sections <= stored && Chained(base, stored, checkpoint, checkpointHead, size)
    requires CutTo(heads, base, sections, stored)
    ensures Chained(heads, sections, checkpoint, checkpointHead, size)
  {
    forall i: nat | checkpoint <= i < sections
      ensures Linked(heads, i, size)
    {
      assert Linked(base, i, size) && HeadSame(heads, base, i);
      if i > 0 { assert HeadSame(heads, base, i - 1); }
    }
    forall i: nat | i in heads
      ensures i < sections
    {
      assert HeadSame(heads, base, i) || sections <= i < stored;
    }
    if checkpoint > 0 { assert HeadSame(heads, base, checkpoint - 1); }
  }

  lemma CutJob(job: Job, heads: map<nat, Hash>, base: map<nat, Hash>, sections: nat, stored: nat, checkpoint: nat,
               size: nat)
    requires size > 0 && checkpoint <= sections <= stored && Sound(job, base, stored, checkpoint, size)
    requires CutTo(heads, base, sections, stored)
    ensures Sound(job, heads, sections, checkpoint, size)
  {
    if job.section > 0 { assert sections == job.section ==> HeadSame(heads, base, job.section - 1); }
  }

  /** Committing a finished job whose base head is still on record adds one linked section. */
  lemma CommitKeeps(job: Job, heads: map<nat, Hash>, stored: nat, checkpoint: nat, checkpointHead: Hash, size: nat)
    requires size > 0 && Chained(heads, stored, checkpoint, checkpointHead, size)
             && Sound(job, heads, stored, checkpoint, size)
    requires job.number == job.section * size + size
             && (job.section == 0 || job.oldHead == HeadOf(heads, job.section - 1))
    ensures stored == job.section
    ensures Chained(heads[job.section := job.lastHead], job.section + 1, checkpoint, checkpointHead, size)
  {
    var next := heads[job.section := job.lastHead];
    forall i: nat | checkpoint <= i < stored
      ensures Linked(next, i, size)
    {
      assert Linked(heads, i, size);
    }
    assert Linked(next, job.section, size);
  }

  class ChainIndexer {
    const size: nat
    const confirms: nat
    const checkpoint: nat
    const checkpointHead: Hash
    var heads: map<nat, Hash>
    var stored: nat
    var known: nat
    var job: Option<Job>

    ghost predicate Inv()
      reads this
    {
      && size > 0 && Chained(heads, stored, checkpoint, checkpointHead, size)
      && (job.Some? ==> Sound(job.value, heads, stored, checkpoint, size))
    }

    /** A fresh index, whose checkpoint, if any, is the head of its last section. */
    constructor (size: nat, confirms: nat, checkpoint: nat, checkpointHead: Hash)
      requires size > 0 && (checkpoint > 0 ==> checkpointHead.H?)
      ensures Inv() && stored == checkpoint && job == None
    {
      this.size, this.confirms, this.checkpoint, this.checkpointHead := size, confirms, checkpoint, checkpointHead;
      heads := if checkpoint > 0 then map[checkpoint - 1 := checkpointHead] else map[];
      stored, known, job := checkpoint, 0, None;
    }

    /** Set the count, which a commit raises; going down, the heads from the new count on go with it. */
    method SetValidSections(sections: nat)
      modifies this`heads, this`stored
      ensures stored == sections && CutTo(heads, old(heads), sections, old(stored))
    {
      while stored > sections
        invariant stored <= old(stored) && (sections <= stored || stored == old(stored))
        invariant CutTo(heads, old(heads), stored, old(stored))
      {
        stored := stored - 1;
        heads := heads - {stored};
      }
      stored := sections;
    }

    /** Drop sections while the last one is not canonical at the time of looking. */
    method VerifyLastHead(views: Views) returns (look: nat)
      requires Inv()
      modifies this`heads, this`stored
      ensures Inv() && look == old(stored) - stored && CutTo(heads, old(heads), stored, old(stored))
      ensures stored == old(stored) ==> heads == old(heads)
      ensures stored > checkpoint ==> HeadOf(heads, stored - 1) == ReadCanonical(views(look), LastOf(stored - 1, size))
      ensures forall i: nat :: stored <= i < old(stored) ==>
                HeadOf(old(heads), i) != ReadCanonical(views(old(stored) - 1 - i), LastOf(i, size))
    {
      look := 0;
      while stored > 0 && stored > checkpoint
        invariant Inv() && look == old(stored) - stored && CutTo(heads, old(heads), stored, old(stored))
        invariant stored == old(stored) ==> heads == old(heads)
        invariant forall i: nat :: stored <= i < old(stored) ==>
                    HeadOf(old(heads), i) != ReadCanonical(views(old(stored) - 1 - i), LastOf(i, size))
        decreases stored
      {
        assert HeadSame(heads, old(heads), stored - 1);
        if HeadOf(heads, stored - 1) == ReadCanonical(views(look), LastOf(stored - 1, size)) { return; }
        Drop(stored - 1);
        look := look + 1;
      }
    }

    /** Forget the sections from `sections` on. */
    method Drop(sections: nat)
      requires Inv() && checkpoint <= sections <= stored
      modifies this`heads, this`stored
      ensures Inv() && stored == sections && CutTo(heads, old(heads), sections, old(stored))
    {
      SetValidSections(sections);
      CutKeeps(heads, old(heads), sections, old(stored), checkpoint, checkpointHead, size);
      if job.Some? { CutJob(job.value, heads, old(heads), sections, old(stored), checkpoint, size); }
    }

    /** The sections that a head leaves with enough confirmations, none of them short of the checkpoint. */
    function Confirmed(head: nat): (sections: nat)
      requires size > 0
      ensures sections > 0 ==>
                sections >= checkpoint && sections * size + confirms <= head + 1 < sections * size + size + confirms
      ensures sections == 0 ==> head + 1 < confirms + size || head + 1 < confirms + checkpoint * size
    {
      FewWhole(if head < confirms then 0 else head + 1 - confirms, size, checkpoint);
      if head < confirms || Whole(head + 1 - confirms, size) < checkpoint then 0 else Whole(head + 1 - confirms, size)
    }

    /** The sections that lie wholly at or below a block, none of them short of the checkpoint. */
    function Spanned(head: nat): (sections: nat)
      requires size > 0
      ensures sections > 0 ==> sections >= checkpoint && sections * size <= head + 1 < sections * size + size
      ensures sections == 0 ==> head + 1 < size || head + 1 < checkpoint * size
    {
      FewWhole(head + 1, size, checkpoint);
      if Whole(head + 1, size) < checkpoint then 0 else Whole(head + 1, size)
    }

    /** The first time past the checkpoint, the chain is held against it. */
    predicate Checked(view: Index)
      requires size > 0
      reads this
    {
      known >= checkpoint || ReadCanonical(view, LastOf(checkpoint - 1, size)) == checkpointHead
    }

    /** A new chain head or, with `reorg`, a common ancestor to fall back to. */
    method NewHead(head: nat, reorg: bool, view: Index)
      requires Inv()
      modifies this`heads, this`stored, this`known
      ensures Inv() && stored <= old(stored)
      // a reorg drops exactly the sections that reach past the ancestor, save those of the checkpoint
      ensures reorg ==>
                CutTo(heads, old(heads), stored, old(stored)) && (stored * size <= head + 1 || stored == checkpoint)
      ensures reorg ==> stored == old(stored) || stored == checkpoint || stored * size + size > head + 1
      ensures reorg ==> known == if old(known) <= Spanned(head) then old(known) else Spanned(head)
      // a head makes known exactly what it confirms, once the checkpoint was matched
      ensures !reorg ==> stored == old(stored) && heads == old(heads)
      ensures !reorg ==>
                known == if old(known) < Confirmed(head) && old(Checked(view)) then Confirmed(head) else old(known)
    {
      assert checkpoint <= stored;
      hide Chained, Sound, CutTo, Whole, LastOf;
      if reorg {
        var sections := Whole(head + 1, size);
        var keep := if sections < checkpoint then checkpoint else sections;
        var seen := if sections < checkpoint then 0 else sections;
        if seen < known { known := seen; }
        if keep < stored {
          Drop(keep);
        } else {
          Fewer(stored, keep, size);
          NoneCut(heads, stored);
        }
        return;
      }
      if head >= confirms {
        var sections := Whole(head + 1 - confirms, size);
        if sections < checkpoint { sections := 0; }
        if sections > known {
          if known < checkpoint && ReadCanonical(view, LastOf(checkpoint - 1, size)) != checkpointHead { return; }
          known := sections;
        }
      }
    }

    /** The update loop takes up the next section and lets go of the lock. */
    method Begin(views: Views) returns (look: nat)
      requires Inv() && job == None
      modifies this
      ensures Inv() && look == old(stored) - stored && CutTo(heads, old(heads), stored, old(stored))
      // only sections whose heads did not match at their look are dropped first
      ensures old(known) > old(stored) && stored > checkpoint ==>
                HeadOf(heads, stored - 1) == ReadCanonical(views(look), LastOf(stored - 1, size))
      ensures forall i: nat :: stored <= i < old(stored) ==>
                HeadOf(old(heads), i) != ReadCanonical(views(old(stored) - 1 - i), LastOf(i, size))
      ensures known == old(known) && (stored == old(stored) ==> heads == old(heads))
      ensures old(known) <= old(stored) ==> stored == old(stored) && heads == old(heads)
      ensures job == if old(known) > old(stored)
                     then Some(Job(stored, HeadBefore(heads, stored), stored * size, HeadBefore(heads, stored)))
                     else None
    {
      look := 0;
      NoneCut(heads, stored);
      if known > stored {
        look := VerifyLastHead(views);
        var oldHead := HeadBefore(heads, stored);
        Started(heads, stored, checkpoint, checkpointHead, size);
        job := Some(Job(stored, oldHead, stored * size, oldHead));
      }
    }

    /** Read one block of the section, from a chain that may have changed since the last one. `processed` is the
        backend's answer. */
    method ReadBlock(view: Index, blocks: set<Header>, processed: bool) returns (ok: bool)
      requires Inv() && job.Some? && job.value.number < job.value.section * size + size
      modifies this`job
      ensures Inv() && job.Some?
      ensures var now, hash := old(job).value, ReadCanonical(view, old(job).value.number);
              && (ok <==> hash.H? && hash.header in blocks && hash.header.number == now.number
                          && hash.header.parent == now.lastHead && processed)
              && job.value == if ok then now.(number := now.number + 1, lastHead := hash) else now
    {
      var now := job.value;
      var hash := ReadCanonical(view, now.number);
      if hash == ZeroHash { return false; }
      if !(hash.header in blocks && hash.header.number == now.number) { return false; }
      if hash.header.parent != now.lastHead || !processed { return false; }
      job := Some(now.(number := now.number + 1, lastHead := hash));
      ok := true;
    }

    /** Take the lock again and commit the section, unless reading failed or the head it builds on is gone. */
    method Finish(ok: bool, views: Views)
      requires Inv() && job.Some? && (ok ==> job.value.number == job.value.section * size + size)
      modifies this
      ensures Inv() && job == None
      ensures var now := old(job).value;
              if ok && (now.section == 0 || now.oldHead == HeadOf(old(heads), now.section - 1))
              then stored == old(stored) + 1 == now.section + 1 && heads == old(heads)[now.section := now.lastHead]
                   && known == old(known)
              else stored <= old(stored) && known == stored && CutTo(heads, old(heads), stored, old(stored))
      // a refused section takes with it exactly those before it whose heads no longer match
      ensures stored <= old(stored) ==>
                && (stored == old(stored) ==> heads == old(heads))
                && (stored > checkpoint ==> HeadOf(heads, stored - 1)
                                            == ReadCanonical(views(old(stored) - stored), LastOf(stored - 1, size)))
                && forall i: nat :: stored <= i < old(stored) ==>
                     HeadOf(old(heads), i) != ReadCanonical(views(old(stored) - 1 - i), LastOf(i, size))
    {
      var now := job.value;
      if ok && (now.section == 0 || now.oldHead == HeadOf(heads, now.section - 1)) {
        CommitKeeps(now, heads, stored, checkpoint, checkpointHead, size);
        heads := heads[now.section := now.lastHead];
        ghost var kept := heads;
        SetValidSections(now.section + 1);
        NothingCut(heads, kept, stored, now.section);
        job := None;
      } else {
        job := None;
        var _ := VerifyLastHead(views);
        known := stored;
      }
    }

    /** The number of valid sections with the head of the last one. `look` tells at which look that head was
        canonical. */
    method Sections(views: Views) returns (count: nat, last: Hash, look: nat)
      requires Inv()
      modifies this`heads, this`stored
      ensures Inv() && count == stored <= old(stored) && last == HeadBefore(heads, count)
      // exactly the sections whose heads do not match at their look are dropped, from the last one down to a match
      ensures look == old(stored) - count && CutTo(heads, old(heads), count, old(stored))
      ensures forall i: nat :: count <= i < old(stored) ==>
                HeadOf(old(heads), i) != ReadCanonical(views(old(stored) - 1 - i), LastOf(i, size))
      ensures count > checkpoint ==> HeadOf(heads, count - 1) == ReadCanonical(views(look), LastOf(count - 1, size))
      ensures count == old(stored) ==> heads == old(heads)
      ensures count == old(stored) <==>
                || old(stored) == checkpoint
                || HeadOf(old(heads), old(stored) - 1) == ReadCanonical(views(0), LastOf(old(stored) - 1, size))
      ensures count > checkpoint ==> forall head :: CanonExact(views(look), head) ==>
                                                      forall i: nat :: checkpoint <= i < count ==>
                                                        Agrees(heads, i, size, views(look))
      ensures count > checkpoint > 0 ==> forall head :: CanonExact(views(look), head) ==>
                                                      Agrees(heads, checkpoint - 1, size, views(look))
    {
      look := VerifyLastHead(views);
      count, last := stored, HeadBefore(heads, stored);
      if count > checkpoint {
        forall head | CanonExact(views(look), head)
          ensures forall i: nat :: checkpoint <= i < count ==> Agrees(heads, i, size, views(look))
          ensures checkpoint > 0 ==> Agrees(heads, checkpoint - 1, size, views(look))
        {
          assert Linked(heads, count - 1, size);
          LastDecides(heads, checkpoint, count, size, views(look), head);
        }
      }
    }

    /** Any interleaving of head events, queries and the steps of the update loop, each with its own view of the chain.
        Steps the loop is not at are skipped. */
    method Interleave(steps: seq<Step>)
      requires Inv()
      modifies this
      ensures Inv()
    {
      hide Chained, Sound, CutTo;
      var failed := false;
      for k := 0 to |steps|
        invariant Inv()
      {
        match steps[k] {
          case Head(head, reorg, view) => NewHead(head, reorg, view);
          case Query(views) => var _, _, _ := Sections(views);
          case Update(views) =>
            if job == None {
              var _ := Begin(views);
              failed := false;
            }
          case Read(view, blocks, processed) =>
            if job.Some? && !failed && job.value.number < job.value.section * size + size {
              var ok := ReadBlock(view, blocks, processed);
              failed := !ok;
            }
          case Close(committed, views) =>
            if job.Some? && (failed || job.value.number == job.value.section * size + size) {
              Finish(!failed && committed && job.value.number == job.value.section * size + size, views);
            }
        }
      }
    }
  }

  datatype Step =
    | Head(head: nat, reorg: bool, view: Index)
    | Query(views: Views)
    | Update(views: Views)
    | Read(view: Index, blocks: set<Header>, processed: bool)
    | Close(committed: bool, views: Views)

  lemma Started(heads: map<nat, Hash>, stored: nat, checkpoint: nat, checkpointHead: Hash, size: nat)
    requires size > 0 && Chained(heads, stored, checkpoint, checkpointHead, size)
    ensures Sound(Job(stored, HeadBefore(heads, stored), stored * size, HeadBefore(heads, stored)), heads, stored,
                  checkpoint, size)
  {
    if stored > checkpoint { assert Linked(heads, stored - 1, size); }
  }
}
