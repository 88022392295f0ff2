/** The lookup and the priced list, which the pool updates together: every pooled transaction is in the lookup
    once, and every remote one can be found in a price heap. */
module TxBooks {
  import opened Transactions
  import opened Lookups
  import opened PricedLists

  class TxBook {
    const all: TxLookup
    const priced: TxPricedList
    /** The pooled transactions. */
    ghost var txs: set<Tx>
    /** Transactions taken off the price heaps that the pool has yet to remove. */
    ghost var leaving: set<Tx>

    ghost predicate Valid()
      reads this, all, priced
    {
      && all.Valid() && priced.Valid() && txs == all.All() && leaving <= txs
      && priced.Tracks(all.remotes - leaving)
    }

    constructor ()
      ensures Valid() && fresh(all) && fresh(priced) && txs == {} && leaving == {}
    {
      all := new TxLookup();
      priced := new TxPricedList();
      txs, leaving := {}, {};
    }

    predicate Has(tx: Tx)
      requires Valid()
      reads this, all, priced
      ensures (Has(tx) <==> tx in txs) && leaving <= txs
    {
      all.Has(tx)
    }

    /** What the tables say of each other. */
    lemma Accounts()
      requires Valid()
      ensures all.slots == SlotsOf(txs) && all.remotes <= txs && leaving <= txs
    {
    }

    /** Prices are compared under the same base fee as before. */
    twostate predicate SameFee()
      reads priced
    {
      priced.baseFee == old(priced.baseFee)
    }

    /** Take the replaced transaction, if any, out and put the new one in, if it is not there yet. */
    method Replace(held: Option<Tx>, tx: Tx, local: bool, addAll: bool)
      requires Valid() && (addAll <==> tx !in txs) && held != Some(tx) && (addAll ==> leaving == {})
      modifies this, all, priced
      ensures Valid() && leaving <= old(leaving) && SameFee()
      ensures txs == (if held.Some? then old(txs) - {held.value} else old(txs)) + {tx}
      ensures all.remotes == (if held.Some? then old(all.remotes) - {held.value} else old(all.remotes))
                             + (if addAll && !local then {tx} else {})
    {
      if held.Some? {
        all.Remove(held.value);
        txs, leaving := txs - {held.value}, leaving - {held.value};
        priced.Removed(1, all.remotes);
      }
      if addAll {
        ghost var before := all.remotes;
        assert priced.Tracks(before);
        all.Add(tx, local);
        txs := txs + {tx};
        label put:
        priced.Put(tx, local);
        forall t | t in all.remotes
          ensures priced.Tracked(t)
        {
          assert t in before ==> old@put(priced.Tracked(t));
        }
      }
    }

    method Remove(tx: Tx, outofbound: bool)
      requires Valid()
      modifies this, all, priced
      ensures Valid() && txs == old(txs) - {tx} && leaving == old(leaving) - {tx} && SameFee()
      ensures all.remotes == old(all.remotes) - {tx}
    {
      all.Remove(tx);
      txs, leaving := txs - {tx}, leaving - {tx};
      if outofbound {
        priced.Removed(1, all.remotes);
      }
    }

    /** Transactions left, none that stayed changed sides, and the base fee is the same. */
    twostate predicate Fewer()
      reads this, all, priced
    {
      txs <= old(txs) && all.remotes == old(all.remotes) * txs && SameFee()
    }

    method RemoveAll(m: Items)
      requires Valid()
      modifies this, all
      ensures Valid() && leaving <= old(leaving) && Fewer()
      ensures txs == old(txs) - Txs(m) && all.remotes == old(all.remotes) - Txs(m)
    {
      all.RemoveAll(m);
      txs, leaving := txs - Txs(m), leaving - Txs(m);
    }

    method Removed(count: nat)
      requires Valid()
      modifies priced
      ensures Valid() && SameFee()
    {
      priced.Removed(count, all.remotes);
    }

    /** No live remote is cheaper than tx, and there is one. */
    ghost predicate Outpriced(tx: Tx)
      reads all, priced
    {
      priced.NoneCheaper(tx, all.remotes)
    }

    /** The slots that evicting could free, repeated heap entries counted again. */
    ghost function Evictable(): nat
      reads all, priced
    {
      LiveSlots(priced.Entries(), all.remotes)
    }

    /** What both mean for the remote transactions, wherever they are kept. */
    lemma PricesMean(tx: Tx)
      requires Valid() && leaving == {}
      ensures Outpriced(tx) ==> NoneBelow(all.remotes, priced.baseFee, tx)
      ensures SlotsOf(all.remotes) <= Evictable()
    {
      assert all.remotes - leaving == all.remotes;
      assert forall t :: t in all.remotes ==> priced.Tracked(t);
      LiveCovers(priced.Entries(), all.remotes, all.remotes);
    }

    method Underpriced(tx: Tx) returns (r: bool)
      requires Valid() && leaving == {}
      modifies priced
      ensures Valid() && SameFee() && (r <==> old(Outpriced(tx))) && Evictable() == old(Evictable())
    {
      assert all.remotes - leaving == all.remotes;
      r := priced.Underpriced(tx, all.remotes);
    }

    /** Pick what to evict; the pool then removes each of the picked transactions. */
    method Discard(slots: int, force: bool) returns (drop: seq<Tx>, ok: bool)
      requires Valid() && leaving == {}
      modifies this`leaving, priced
      ensures Valid() && SameFee() && leaving == set tx | tx in drop
      ensures ok <==> force || slots <= old(Evictable())
      ensures leaving <= all.remotes && (ok && !force ==> slots <= SlotSum(drop)) && Needed(drop, slots)
      ensures !ok ==> !force && drop == [] && SlotsOf(all.remotes) < slots
    {
      assert all.remotes - leaving == all.remotes;
      ghost var cuts;
      drop, ok, cuts := priced.Discard(slots, force, all.remotes);
      leaving := set tx | tx in drop;
    }

    method RemoteToLocals(accounts: set<Address>)
      requires Valid() && leaving == {}
      modifies all, priced
      ensures Valid() && SameFee() && all.remotes == set tx | tx in old(all.remotes) && tx.from !in accounts
    {
      assert all.remotes - leaving == all.remotes;
      var migrated := all.RemoteToLocals(accounts);
      assert all.remotes - leaving == all.remotes;
      priced.Removed(migrated, all.remotes);
    }

    method SetBaseFee(fee: nat)
      requires Valid()
      modifies priced
      ensures Valid() && priced.baseFee == Some(fee)
    {
      priced.SetBaseFee(fee, all.remotes);
    }
  }
}
