/** Account balances and what they add up to. */
module Ledgers {
  import opened Transactions

  /** Balances are big integers: nothing in the ledger itself keeps them from going negative. */
  type Ledger = map<Address, int>

  function Balance(l: Ledger, a: Address): int { if a in l then l[a] else 0 }

  function Credit(l: Ledger, a: Address, v: int): Ledger { l[a := Balance(l, a) + v] }

  /** The sum of all balances. */
  ghost function Wealth(l: Ledger): int {
    if l == map[] then 0 else var a :| a in l; l[a] + Wealth(l - {a})
  }

  lemma {:induction false} WealthOf(l: Ledger, a: Address)
    requires a in l
    ensures Wealth(l) == l[a] + Wealth(l - {a})
    decreases |l|
  {
    var b :| b in l && Wealth(l) == l[b] + Wealth(l - {b});
    if a != b {
      WealthOf(l - {b}, a);
      WealthOf(l - {a}, b);
      assert l - {b} - {a} == l - {a} - {b};
    }
  }

  lemma WealthCredit(l: Ledger, a: Address, v: int)
    ensures Wealth(Credit(l, a, v)) == Wealth(l) + v
  {
    var next := Credit(l, a, v);
    WealthOf(next, a);
    assert next - {a} == l - {a};
    if a in l { WealthOf(l, a); } else { assert l - {a} == l; }
  }

  predicate CanTransfer(l: Ledger, from: Address, amount: nat) { Balance(l, from) >= amount }

  function Transfer(l: Ledger, from: Address, to: Address, amount: nat): Ledger {
    Credit(Credit(l, from, 0 - amount), to, amount)
  }

  /** A transfer moves the amount and nothing else, also when sender and recipient are the same account. */
  lemma TransferConserves(l: Ledger, from: Address, to: Address, amount: nat)
    ensures Wealth(Transfer(l, from, to, amount)) == Wealth(l)
    ensures from == to ==> forall a :: Balance(Transfer(l, from, to, amount), a) == Balance(l, a)
    ensures from != to ==>
              && Balance(Transfer(l, from, to, amount), from) == Balance(l, from) - amount
              && Balance(Transfer(l, from, to, amount), to) == Balance(l, to) + amount
    ensures forall a :: a != from && a != to ==> Balance(Transfer(l, from, to, amount), a) == Balance(l, a)
    ensures CanTransfer(l, from, amount) ==>
              (forall a :: Balance(l, a) >= 0 ==> Balance(Transfer(l, from, to, amount), a) >= 0)
  {
    WealthCredit(l, from, 0 - amount);
    WealthCredit(Credit(l, from, 0 - amount), to, amount);
  }
}
