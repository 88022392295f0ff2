/** txLookup and txNoncer: the pool's table of all transactions and its table of virtual nonces. */
module Lookups {
  import opened Transactions

  /** All pooled transactions, local and remote, with the slots they fill. */
  class TxLookup {
    var slots: int
    var locals: set<Tx>
    var remotes: set<Tx>

    ghost function All(): set<Tx>
      reads this
    {
      locals + remotes
    }

    /** No transaction is filed twice and `slots` is the sum over all of them. */
    ghost predicate Valid()
      reads this
    {
      locals !! remotes && slots == SlotsOf(locals + remotes)
    }

    constructor ()
      ensures Valid() && All() == {} && remotes == {}
    {
      slots, locals, remotes := 0, {}, {};
    }

    predicate Has(tx: Tx)
      reads this
    {
      tx in locals || tx in remotes
    }

    method Add(tx: Tx, local: bool)
      requires Valid() && !Has(tx)
      modifies this
      ensures Valid() && All() == old(All()) + {tx}
      ensures remotes == if local then old(remotes) else old(remotes) + {tx}
    {
      SlotsWith(locals + remotes, tx);
      assert locals + {tx} + remotes == locals + remotes + {tx} == locals + (remotes + {tx});
      slots := slots + NumSlots(tx);
      if local { locals := locals + {tx}; } else { remotes := remotes + {tx}; }
    }

    method Remove(tx: Tx)
      requires Valid()
      modifies this
      ensures Valid() && All() == old(All()) - {tx} && remotes == old(remotes) - {tx}
    {
      if !Has(tx) {
        return;
      }
      SlotsWithout(locals + remotes, tx);
      assert locals + remotes - {tx} == (locals - {tx}) + (remotes - {tx});
      slots := slots - NumSlots(tx);
      locals, remotes := locals - {tx}, remotes - {tx};
    }

    method RemoveAll(m: Items)
      requires Valid()
      modifies this
      ensures Valid() && All() == old(All()) - Txs(m) && remotes == old(remotes) - Txs(m)
    {
      hide Txs, TxLookup.Valid;
      var todo := m.Keys;
      NoTxs(m);
      while todo != {}
        invariant Valid() && todo <= m.Keys
        invariant All() == old(All()) - Txs(m - todo) && remotes == old(remotes) - Txs(m - todo)
        decreases |todo|
      {
        var n :| n in todo;
        TxsStep(m, todo, n);
        ghost var gone := Txs(m - todo);
        LessOne(old(All()), gone, m[n]);
        LessOne(old(remotes), gone, m[n]);
        Remove(m[n]);
        todo := todo - {n};
      }
      assert m - todo == m;
    }

    /** Refile the remote transactions of accounts that have become local. */
    method RemoteToLocals(accounts: set<Address>) returns (migrated: nat)
      requires Valid()
      modifies this
      ensures Valid() && All() == old(All())
      ensures remotes == set tx | tx in old(remotes) && tx.from !in accounts
      ensures migrated == |old(remotes)| - |remotes|
    {
      migrated := 0;
      var todo := remotes;
      while todo != {}
        invariant Valid() && todo <= remotes && All() == old(All())
        invariant remotes == set tx | tx in old(remotes) && (tx in todo || tx.from !in accounts)
        invariant migrated == |old(remotes)| - |remotes|
        decreases |todo|
      {
        var tx :| tx in todo;
        todo := todo - {tx};
        if tx.from in accounts {
          assert locals + {tx} + (remotes - {tx}) == locals + remotes;
          locals, remotes := locals + {tx}, remotes - {tx};
          migrated := migrated + 1;
        }
      }
    }

    /** List the remote transactions below a tip, each once. */
    method RemotesBelowTip(threshold: nat) returns (found: seq<Tx>)
      ensures forall tx :: multiset(found)[tx] == if tx in remotes && tx.tipCap < threshold then 1 else 0
    {
      found := [];
      var todo := remotes;
      while todo != {}
        invariant todo <= remotes
        invariant forall tx :: multiset(found)[tx] == if tx in remotes - todo && tx.tipCap < threshold then 1 else 0
        decreases |todo|
      {
        var tx :| tx in todo;
        if tx.tipCap < threshold { found := found + [tx]; }
        todo := todo - {tx};
      }
    }
  }

  lemma NoTxs(m: Items)
    ensures Txs(m - m.Keys) == {}
  {
  }

  lemma LessOne(s: set<Tx>, gone: set<Tx>, tx: Tx)
    ensures s - gone - {tx} == s - (gone + {tx})
  {
  }

  /** Virtual nonces on top of a state: an account not asked about yet reads through to the state. */
  class TxNoncer {
    const fallback: Address -> nat
    var nonces: map<Address, nat>

    function Nonce(a: Address): nat
      reads this
    {
      if a in nonces then nonces[a] else fallback(a)
    }

    constructor (fallback: Address -> nat)
      ensures this.fallback == fallback && forall a :: Nonce(a) == fallback(a)
    {
      this.fallback := fallback;
      nonces := map[];
    }

    /** Reading fills the table but changes no nonce. */
    method Get(a: Address) returns (n: nat)
      modifies this
      ensures n == old(Nonce(a)) && forall x :: Nonce(x) == old(Nonce(x))
    {
      if a !in nonces {
        nonces := nonces[a := fallback(a)];
      }
      n := nonces[a];
    }

    method Set(a: Address, nonce: nat)
      modifies this
      ensures Nonce(a) == nonce && forall x :: x != a ==> Nonce(x) == old(Nonce(x))
    {
      nonces := nonces[a := nonce];
    }

    method SetIfLower(a: Address, nonce: nat)
      modifies this
      ensures Nonce(a) == if nonce < old(Nonce(a)) then nonce else old(Nonce(a))
      ensures forall x :: x != a ==> Nonce(x) == old(Nonce(x))
    {
      if a !in nonces {
        nonces := nonces[a := fallback(a)];
      }
      if nonces[a] <= nonce {
        return;
      }
      nonces := nonces[a := nonce];
    }
  }
}
