/** Applying one message: buying gas, running the EVM, refunding, paying the coinbase. */
module StateTransitions {
  import opened Transactions
  import opened Ledgers
  import opened Words

  const FEE_LIMIT: nat := WORD * WORD * WORD * WORD

  const TX_GAS: nat := 21000
  const TX_GAS_CONTRACT_CREATION: nat := 53000
  const TX_DATA_ZERO_GAS: nat := 4
  const TX_DATA_NON_ZERO_GAS_FRONTIER: nat := 68
  const TX_DATA_NON_ZERO_GAS_EIP2028: nat := 16
  const TX_ACCESS_LIST_ADDRESS_GAS: nat := 2400
  const TX_ACCESS_LIST_STORAGE_KEY_GAS: nat := 1900
  const REFUND_QUOTIENT: nat := 2
  const REFUND_QUOTIENT_EIP3529: nat := 5

  /** `accessList` holds the number of storage keys of each listed address. */
  datatype Message = Message(from: Address, to: Option<Address>, nonce: nat, checkNonce: bool, value: nat, gas: nat,
                             gasPrice: nat, feeCap: Option<nat>, tipCap: nat, data: seq<nat>, accessList: seq<nat>)

  datatype Env = Env(homestead: bool, istanbul: bool, london: bool, baseFee: nat, noBaseFee: bool, coinbase: Address)

  datatype World = World(balances: Ledger, nonces: map<Address, nat>, contracts: set<Address>)

  datatype Error =
    | NonceTooHigh | NonceTooLow | SenderNoEOA | FeeCapVeryHigh | TipVeryHigh | TipAboveFeeCap | FeeCapTooLow
    | InsufficientFunds | GasLimitReached | GasUintOverflow | IntrinsicGas | InsufficientFundsForTransfer

  datatype Result = Executed(usedGas: nat, failed: bool) | Rejected(error: Error)

  /** What a top-level call or creation leaves behind: the world, the gas left, the refund counter, and whether it
      failed. */
  datatype Outcome = Outcome(world: World, gas: nat, refund: nat, failed: bool)

  type Evm = (World, Message, nat) -> Outcome

  /** The EVM keeps the sum of balances and gives back no more gas than it got. */
  ghost predicate Conserving(evm: Evm) {
    forall w, msg, gas :: evm(w, msg, gas).gas <= gas && Wealth(evm(w, msg, gas).world.balances) == Wealth(w.balances)
  }

  // ----- the block's gas pool -----

  class GasPool {
    var gas: nat

    ghost predicate Valid()
      reads this
    {
      gas < WORD
    }

    constructor ()
      ensures Valid() && gas == 0
    {
      gas := 0;
    }

    /** Going above 64 bits would panic: the caller must not let it. */
    method AddGas(amount: nat)
      requires Valid() && gas + amount < WORD
      modifies this
      ensures Valid() && gas == old(gas) + amount
    {
      gas := gas + amount;
    }

    method SubGas(amount: nat) returns (ok: bool)
      requires Valid()
      modifies this
      ensures Valid() && ok == (old(gas) >= amount) && gas == if ok then old(gas) - amount else old(gas)
    {
      if gas < amount { return false; }
      gas := gas - amount;
      ok := true;
    }
  }

  // ----- intrinsic gas -----

  function NonZero(data: seq<nat>): (n: nat)
    ensures n <= |data|
  {
    if data == [] then 0 else NonZero(data[..|data| - 1]) + if data[|data| - 1] != 0 then 1 else 0
  }

  function Sum(s: seq<nat>): nat { if s == [] then 0 else Sum(s[..|s| - 1]) + s[|s| - 1] }

  function BaseGas(msg: Message, env: Env): nat {
    if msg.to.None? && env.homestead then TX_GAS_CONTRACT_CREATION else TX_GAS
  }

  function NonZeroGas(env: Env): nat {
    if env.istanbul then TX_DATA_NON_ZERO_GAS_EIP2028 else TX_DATA_NON_ZERO_GAS_FRONTIER
  }

  function Times(count: nat, price: nat): nat { count * price }

  /** What the message costs up front, over unbounded numbers: for itself and its data, and for its access list. */
  function DataGas(msg: Message, env: Env): nat {
    BaseGas(msg, env) + Times(NonZero(msg.data), NonZeroGas(env))
    + Times(|msg.data| - NonZero(msg.data), TX_DATA_ZERO_GAS)
  }

  function ListGas(msg: Message): nat {
    Times(|msg.accessList|, TX_ACCESS_LIST_ADDRESS_GAS) + Times(Sum(msg.accessList), TX_ACCESS_LIST_STORAGE_KEY_GAS)
  }

  /** The gas charged up front. */
  function UpFront(msg: Message, env: Env): nat { (DataGas(msg, env) + ListGas(msg)) % WORD }

  /** The guard `(max - gas) / price < count` is exactly the overflow of `gas + count * price`. */
  lemma Overflows(gas: nat, count: nat, price: nat)
    requires gas < WORD && price > 0
    ensures (WORD - 1 - gas) / price < count <==> gas + Times(count, price) >= WORD
  {
    var q, room := (WORD - 1 - gas) / price, WORD - 1 - gas;
    assert q * price <= room < q * price + price;
    if q < count {
      assert (q + 1) * price <= count * price;
    } else {
      assert count * price <= q * price;
    }
  }

  method CountNonZero(data: seq<nat>) returns (nz: nat)
    ensures nz == NonZero(data)
  {
    nz := 0;
    for i := 0 to |data|
      invariant nz == NonZero(data[..i])
    {
      assert data[..i + 1][..i] == data[..i];
      if data[i] != 0 { nz := nz + 1; }
    }
    assert data[..|data|] == data;
  }

  method StorageKeys(accessList: seq<nat>) returns (keys: nat)
    ensures keys == Sum(accessList)
  {
    keys := 0;
    for i := 0 to |accessList|
      invariant keys == Sum(accessList[..i])
    {
      assert accessList[..i + 1][..i] == accessList[..i];
      keys := keys + accessList[i];
    }
    assert accessList[..|accessList|] == accessList;
  }

  /** Data that does not fit 64 bits is refused; the access list is added without looking, modulo 64 bits. */
  method Intrinsic(msg: Message, env: Env) returns (r: Option<nat>)
    ensures r.None? <==> DataGas(msg, env) >= WORD
    ensures r.Some? ==> r.value == UpFront(msg, env)
  {
    hide Times, NonZero, Sum;
    var gas := BaseGas(msg, env);
    NoData(msg.data, NonZeroGas(env));
    if |msg.data| > 0 {
      var nz := CountNonZero(msg.data);
      Overflows(gas, nz, NonZeroGas(env));
      if (WORD - 1 - gas) / NonZeroGas(env) < nz { return None; }
      gas := gas + Times(nz, NonZeroGas(env));
      var z := |msg.data| - nz;
      Overflows(gas, z, TX_DATA_ZERO_GAS);
      if (WORD - 1 - gas) / TX_DATA_ZERO_GAS < z { return None; }
      gas := gas + Times(z, TX_DATA_ZERO_GAS);
    }
    var keys := StorageKeys(msg.accessList);
    var addresses := Times(|msg.accessList|, TX_ACCESS_LIST_ADDRESS_GAS);
    Wraps(gas, addresses, Times(keys, TX_ACCESS_LIST_STORAGE_KEY_GAS));
    gas := (gas + addresses) % WORD;
    gas := (gas + Times(keys, TX_ACCESS_LIST_STORAGE_KEY_GAS)) % WORD;
    r := Some(gas);
  }

  lemma NoData(data: seq<nat>, price: nat)
    ensures data == [] ==> Times(NonZero(data), price) == 0 && Times(|data| - NonZero(data), TX_DATA_ZERO_GAS) == 0
  {
  }

  lemma Wraps(a: nat, b: nat, c: nat)
    ensures ((a + b) % WORD + c) % WORD == (a + b + c) % WORD
  {
  }

  // ----- prices -----

  function Min(a: int, b: int): int { if a < b then a else b }

  /** The price a transaction pays per unit of gas, by its caps and the base fee of the block, if it has one. */
  function EffectivePrice(feeCap: nat, tipCap: nat, baseFee: Option<nat>): nat {
    if baseFee.Some? then Min(tipCap + baseFee.value, feeCap) else feeCap
  }

  /** The message is priced as a transaction of a block is. */
  predicate Priced(msg: Message, env: Env) {
    && msg.feeCap.Some?
    && msg.gasPrice == EffectivePrice(msg.feeCap.value, msg.tipCap, if env.london then Some(env.baseFee) else None)
  }

  /** What the coinbase gets per unit of gas. */
  function Tip(msg: Message, env: Env): int
    requires env.london ==> msg.feeCap.Some?
  {
    if env.london then Min(msg.tipCap, msg.feeCap.value - env.baseFee) else msg.gasPrice
  }

  /** What is burnt per unit of gas. */
  function Burn(env: Env): nat { if env.london then env.baseFee else 0 }

  /** The price splits into tip and burn. */
  lemma PriceSplits(msg: Message, env: Env)
    requires env.london ==> Priced(msg, env)
    ensures msg.gasPrice == Tip(msg, env) + Burn(env)
  {
  }

  function Cost(gas: int, price: int): int { gas * price }

  lemma Settlement(gas: int, left: int, tip: int, burn: int)
    ensures Cost(left, tip + burn) + Cost(gas - left, tip) - Cost(gas, tip + burn) == -Cost(gas - left, burn)
  {
  }

  /** A sender who could pay the fee cap for all the gas and the value on top still has the value after paying the
      price. */
  lemma Affordable(balance: int, gas: nat, price: nat, feeCap: nat, value: nat)
    requires price <= feeCap && balance >= Cost(gas, feeCap) + value
    ensures balance - Cost(gas, price) >= value
  {
    assert gas * price <= gas * feeCap;
  }

  // ----- one message -----

  function Nonce(w: World, a: Address): nat { if a in w.nonces then w.nonces[a] else 0 }

  function Pay(w: World, a: Address, v: int): World { w.(balances := Credit(w.balances, a, v)) }

  /** The sender's balance must cover the fee cap, or without one the price, for all the gas, and with one the value. */
  function Needed(msg: Message): int {
    if msg.feeCap.Some? then Cost(msg.gas, msg.feeCap.value) + msg.value else Cost(msg.gas, msg.gasPrice)
  }

  predicate FeesChecked(msg: Message, env: Env)
    requires env.london ==> msg.feeCap.Some?
  {
    env.london && (!env.noBaseFee || msg.feeCap.value > 0 || msg.tipCap > 0)
  }

  /** Why a message may be turned away before it pays anything. */
  predicate Reason(e: Error, msg: Message, env: Env, w: World, pool: nat)
    requires env.london ==> msg.feeCap.Some?
  {
    match e
    case NonceTooHigh => msg.checkNonce && Nonce(w, msg.from) < msg.nonce
    case NonceTooLow => msg.checkNonce && Nonce(w, msg.from) > msg.nonce
    case SenderNoEOA => msg.from in w.contracts
    case FeeCapVeryHigh => FeesChecked(msg, env) && msg.feeCap.value >= FEE_LIMIT
    case TipVeryHigh => FeesChecked(msg, env) && msg.tipCap >= FEE_LIMIT
    case TipAboveFeeCap => FeesChecked(msg, env) && msg.feeCap.value < msg.tipCap
    case FeeCapTooLow => FeesChecked(msg, env) && msg.feeCap.value < env.baseFee
    case InsufficientFunds => Balance(w.balances, msg.from) < Needed(msg)
    case GasLimitReached => pool < msg.gas
    case _ => false
  }

  /** The world the EVM starts from: the gas is paid for, and a call has used up its nonce. */
  function Entry(msg: Message, w: World): World {
    var paid := Pay(w, msg.from, -Cost(msg.gas, msg.gasPrice));
    if msg.to.None? then paid else paid.(nonces := paid.nonces[msg.from := Nonce(paid, msg.from) + 1])
  }

  function Quotient(env: Env): nat { if env.london then REFUND_QUOTIENT_EIP3529 else REFUND_QUOTIENT }

  /** The gas a message is charged for after the refund, which is at most a share of what the EVM used. */
  function Charged(msg: Message, env: Env, o: Outcome): (used: nat)
    requires o.gas <= msg.gas
    ensures used <= msg.gas - o.gas
  {
    Share(msg.gas - o.gas, Quotient(env));
    msg.gas - o.gas - Min((msg.gas - o.gas) / Quotient(env), o.refund)
  }

  /** The world after the sender got the rest of the gas back and the coinbase its tip. */
  function Settled(msg: Message, env: Env, o: Outcome): World
    requires o.gas <= msg.gas && (env.london ==> msg.feeCap.Some?)
  {
    var used := Charged(msg, env, o);
    Pay(Pay(o.world, msg.from, Cost(msg.gas - used, msg.gasPrice)), env.coinbase, Cost(used, Tip(msg, env)))
  }

  /** However sender, recipient and coinbase coincide, the balances fall by exactly what is burnt. */
  lemma SettledWealth(msg: Message, env: Env, w: World, o: Outcome)
    requires o.gas <= msg.gas && (env.london ==> Priced(msg, env))
    requires Wealth(o.world.balances) == Wealth(Entry(msg, w).balances)
    ensures Wealth(Settled(msg, env, o).balances) == Wealth(w.balances) - Cost(Charged(msg, env, o), Burn(env))
  {
    hide Wealth, Cost, Charged, Credit;
    var used := Charged(msg, env, o);
    var back := Pay(o.world, msg.from, Cost(msg.gas - used, msg.gasPrice));
    PriceSplits(msg, env);
    PayWealth(w, msg.from, -Cost(msg.gas, msg.gasPrice));
    PayWealth(o.world, msg.from, Cost(msg.gas - used, msg.gasPrice));
    PayWealth(back, env.coinbase, Cost(used, Tip(msg, env)));
    Settlement(msg.gas, msg.gas - used, Tip(msg, env), Burn(env));
  }

  // ----- who ends up with what -----

  /** The sender has paid for all its gas and nothing else has moved. */
  ghost predicate GasPaid(msg: Message, before: World, after: World) {
    && after.nonces == before.nonces && after.contracts == before.contracts
    && forall a :: Balance(after.balances, a)
                   == Balance(before.balances, a) - if a == msg.from then msg.gas * msg.gasPrice else 0
  }

  /** The EVM starts with the gas paid for, and for a call, but not for a creation, with the sender's nonce raised. */
  ghost predicate Launched(msg: Message, before: World, start: World) {
    && start.contracts == before.contracts
    && (forall a :: Balance(start.balances, a)
                    == Balance(before.balances, a) - if a == msg.from then msg.gas * msg.gasPrice else 0)
    && (forall a :: Nonce(start, a) == Nonce(before, a) + if a == msg.from && msg.to.Some? then 1 else 0)
  }

  /** After the EVM the sender gets the gas that was not used at the price, the coinbase what was used at the tip, both
      if they are the same account, and nobody else anything. */
  ghost predicate PaidOut(msg: Message, env: Env, o: Outcome, used: nat, after: World)
    requires env.london ==> msg.feeCap.Some?
  {
    var tip := if !env.london then msg.gasPrice
               else if msg.tipCap < msg.feeCap.value - env.baseFee then msg.tipCap
               else msg.feeCap.value - env.baseFee;
    && after.nonces == o.world.nonces && after.contracts == o.world.contracts
    && forall a :: Balance(after.balances, a)
                   == Balance(o.world.balances, a) + (if a == msg.from then (msg.gas - used) * msg.gasPrice else 0)
                      + (if a == env.coinbase then used * tip else 0)
  }

  /** What the message is charged for is what the EVM used, less the refund counter up to half of that, or up to a fifth
      from London on. */
  ghost predicate Refunded(msg: Message, env: Env, o: Outcome, used: nat)
    requires o.gas <= msg.gas
  {
    var spent: nat := msg.gas - o.gas;
    var share := if env.london then spent / 5 else spent / 2;
    used == if o.refund < share then spent - o.refund else spent - share
  }

  lemma GasIsPaid(msg: Message, w: World)
    ensures GasPaid(msg, w, Paid(msg, w))
  {
  }

  lemma EntryLaunches(msg: Message, w: World)
    ensures Launched(msg, w, Entry(msg, w))
  {
  }

  lemma SettledPaysOut(msg: Message, env: Env, o: Outcome)
    requires o.gas <= msg.gas && (env.london ==> msg.feeCap.Some?)
    ensures PaidOut(msg, env, o, Charged(msg, env, o), Settled(msg, env, o))
    ensures Refunded(msg, env, o, Charged(msg, env, o))
  {
  }

  lemma BurnIs(used: int, env: Env)
    ensures Cost(used, Burn(env)) == if env.london then used * env.baseFee else 0
  {
  }

  /** What intrinsic gas is made of, in numbers. */
  lemma ChargeTable(msg: Message, env: Env)
    ensures BaseGas(msg, env) == if msg.to.None? && env.homestead then 53000 else 21000
    ensures DataGas(msg, env)
            == BaseGas(msg, env) + NonZero(msg.data) * (if env.istanbul then 16 else 68)
               + (|msg.data| - NonZero(msg.data)) * 4
    ensures ListGas(msg) == |msg.accessList| * 2400 + Sum(msg.accessList) * 1900
  {
  }

  /** Nothing stands against the message before it pays. */
  ghost predicate Admitted(msg: Message, env: Env, w: World, pool: nat)
    requires env.london ==> msg.feeCap.Some?
  {
    forall e :: !Reason(e, msg, env, w, pool)
  }

  /** The world after the sender has paid for all the gas. */
  function Paid(msg: Message, w: World): World { Pay(w, msg.from, -Cost(msg.gas, msg.gasPrice)) }

  /** Why a message may be turned away after it has paid, first reason first. */
  predicate LateReason(e: Error, msg: Message, env: Env, w: World) {
    match e
    case GasUintOverflow => DataGas(msg, env) >= WORD
    case IntrinsicGas => DataGas(msg, env) < WORD && msg.gas < UpFront(msg, env)
    case InsufficientFundsForTransfer =>
      DataGas(msg, env) < WORD && UpFront(msg, env) <= msg.gas && !Funded(msg, w)
    case _ => false
  }

  /** What is left after paying for the gas covers the value. */
  predicate Funded(msg: Message, w: World) { msg.value == 0 || CanTransfer(Paid(msg, w).balances, msg.from, msg.value) }

  /** The message is worth running once it has paid: its data fits, its gas covers the charge, its value is there. */
  predicate Runnable(msg: Message, env: Env, w: World) {
    DataGas(msg, env) < WORD && UpFront(msg, env) <= msg.gas && Funded(msg, w)
  }

  class StateTransition {
    const msg: Message
    const env: Env
    const evm: Evm
    const gp: GasPool
    var world: World
    var gas: nat
    var initialGas: nat

    ghost predicate Ready()
      reads this, gp
    {
      gp.Valid() && Conserving(evm) && gas == 0 && msg.gas < WORD && (env.london ==> msg.feeCap.Some?)
    }

    constructor (evm: Evm, env: Env, msg: Message, gp: GasPool, world: World)
      requires gp.Valid() && Conserving(evm) && msg.gas < WORD && (env.london ==> msg.feeCap.Some?)
      ensures Ready() && this.evm == evm && this.env == env && this.msg == msg && this.gp == gp && this.world == world
    {
      this.evm, this.env, this.msg, this.gp, this.world, gas, initialGas := evm, env, msg, gp, world, 0, 0;
    }

    /** Gas bought: the pool gives it, the sender has paid for it. */
    twostate predicate Bought()
      reads this, gp
    {
      && gas == initialGas == msg.gas && gp.gas == old(gp.gas) - msg.gas && gp.Valid()
      && world == Pay(old(world), msg.from, -Cost(msg.gas, msg.gasPrice))
    }

    method BuyGas() returns (err: Option<Error>)
      requires Ready()
      modifies this, gp
      ensures err.Some? ==> unchanged(this) && gp.gas == old(gp.gas) && Reason(err.value, msg, env, world, gp.gas)
      ensures err.None? ==> Bought() && Balance(old(world).balances, msg.from) >= Needed(msg) && old(gp.gas) >= msg.gas
    {
      var mgval := Cost(msg.gas, msg.gasPrice);
      var balanceCheck := mgval;
      if msg.feeCap.Some? { balanceCheck := Cost(msg.gas, msg.feeCap.value) + msg.value; }
      if Balance(world.balances, msg.from) < balanceCheck { return Some(InsufficientFunds); }
      var ok := gp.SubGas(msg.gas);
      if !ok { return Some(GasLimitReached); }
      gas := gas + msg.gas;
      initialGas := msg.gas;
      world := Pay(world, msg.from, -mgval);
      err := None;
    }

    method PreCheck() returns (err: Option<Error>)
      requires Ready()
      modifies this, gp
      ensures err.Some? ==> unchanged(this) && gp.gas == old(gp.gas) && Reason(err.value, msg, env, world, gp.gas)
      ensures err.None? ==> Bought() && forall e :: !Reason(e, msg, env, old(world), old(gp.gas))
      ensures err.None? ==> old(gp.gas) >= msg.gas && Balance(old(world).balances, msg.from) >= Needed(msg)
    {
      if msg.checkNonce {
        var stNonce := Nonce(world, msg.from);
        if stNonce < msg.nonce { return Some(NonceTooHigh); }
        if stNonce > msg.nonce { return Some(NonceTooLow); }
      }
      if msg.from in world.contracts { return Some(SenderNoEOA); }
      if env.london {
        if !env.noBaseFee || msg.feeCap.value > 0 || msg.tipCap > 0 {
          if msg.feeCap.value >= FEE_LIMIT { return Some(FeeCapVeryHigh); }
          if msg.tipCap >= FEE_LIMIT { return Some(TipVeryHigh); }
          if msg.feeCap.value < msg.tipCap { return Some(TipAboveFeeCap); }
          if msg.feeCap.value < env.baseFee { return Some(FeeCapTooLow); }
        }
      }
      err := BuyGas();
    }

    /** Give back what is left of the gas and, up to a share of what was used, the refund counter. */
    method RefundGas(quotient: nat, counter: nat)
      requires gp.Valid() && gas <= initialGas && quotient > 0 && gp.gas + initialGas < WORD
      modifies this, gp
      ensures old(gas) <= gas <= initialGas == old(initialGas)
      ensures gas - old(gas) == Min((initialGas - old(gas)) / quotient, counter)
      ensures world == Pay(old(world), msg.from, Cost(gas, msg.gasPrice))
      ensures gp.Valid() && gp.gas == old(gp.gas) + gas
    {
      var refund := (initialGas - gas) / quotient;
      Share(initialGas - gas, quotient);
      if refund > counter { refund := counter; }
      gas := gas + refund;
      world := Pay(world, msg.from, Cost(gas, msg.gasPrice));
      gp.AddGas(gas);
    }

    /** Apply the message. */
    method TransitionDb() returns (r: Result)
      requires Ready()
      modifies this, gp
      ensures gp.Valid()
      // executed exactly when nothing stands against it, before it pays or after
      ensures r.Executed? <==> Admitted(msg, env, old(world), old(gp.gas)) && Runnable(msg, env, old(world))
      // turned away before it paid: for a reason that holds, and nothing changes
      ensures !Admitted(msg, env, old(world), old(gp.gas)) ==>
                && r.Rejected? && Reason(r.error, msg, env, old(world), old(gp.gas))
                && world == old(world) && gp.gas == old(gp.gas)
      // turned away afterwards: for a reason that holds, with its gas bought and not given back
      ensures Admitted(msg, env, old(world), old(gp.gas)) && !Runnable(msg, env, old(world)) ==>
                && r.Rejected? && LateReason(r.error, msg, env, old(world))
                && world == Paid(msg, old(world)) && gp.gas == old(gp.gas) - msg.gas && GasPaid(msg, old(world), world)
      ensures msg.feeCap.Some? && msg.gasPrice <= msg.feeCap.value ==> r != Rejected(InsufficientFundsForTransfer)
      // an executed one: the pool is down by the gas used, the balances by what is burnt
      ensures r.Executed? ==>
                && UpFront(msg, env) <= msg.gas && r.usedGas <= msg.gas <= old(gp.gas)
                && gp.gas == old(gp.gas) - r.usedGas
                && var o := evm(Entry(msg, old(world)), msg, msg.gas - UpFront(msg, env));
                   o.gas <= msg.gas && world == Settled(msg, env, o) && r == Executed(Charged(msg, env, o), o.failed)
      ensures r.Executed? && (env.london ==> Priced(msg, env)) ==>
                && Wealth(world.balances) == Wealth(old(world).balances) - Cost(r.usedGas, Burn(env))
                && Cost(r.usedGas, Burn(env)) == if env.london then r.usedGas * env.baseFee else 0
      // who pays and who is paid, account by account: before the EVM, and after it
      ensures r.Executed? ==>
                var start := Entry(msg, old(world));
                var o := evm(start, msg, msg.gas - UpFront(msg, env));
                && Launched(msg, old(world), start) && o.gas <= msg.gas && Refunded(msg, env, o, r.usedGas)
                && PaidOut(msg, env, o, r.usedGas, world)
    {
      hide Conserving, Wealth, Credit, Cost, Settled, UpFront, Priced, Reason, Needed, DataGas, Funded, LateReason, Pay;
      hide Launched, PaidOut, Refunded, GasPaid, Charged, Entry, Burn;
      GasIsPaid(msg, world);
      EntryLaunches(msg, world);
      var err := PreCheck();
      if err.Some? { return Rejected(err.value); }
      r := Perform(old(world));
      if r.Executed? {
        SettledPaysOut(msg, env, evm(Entry(msg, old(world)), msg, msg.gas - UpFront(msg, env)));
        BurnIs(r.usedGas, env);
      }
    }

    /** What follows once the gas is bought; w is the world before that. */
    method Perform(ghost w: World) returns (r: Result)
      requires gp.Valid() && Conserving(evm) && (env.london ==> msg.feeCap.Some?)
      requires gas == initialGas == msg.gas && gp.gas + msg.gas < WORD && world == Paid(msg, w)
      requires Balance(w.balances, msg.from) >= Needed(msg)
      modifies this, gp
      ensures gp.Valid() && (r.Executed? <==> Runnable(msg, env, w))
      ensures r.Rejected? ==> LateReason(r.error, msg, env, w) && world == old(world) && gp.gas == old(gp.gas)
      ensures msg.feeCap.Some? && msg.gasPrice <= msg.feeCap.value ==> r != Rejected(InsufficientFundsForTransfer)
      ensures r.Executed? ==>
                && r.usedGas <= msg.gas && gp.gas == old(gp.gas) + msg.gas - r.usedGas
                && var o := evm(Entry(msg, w), msg, msg.gas - UpFront(msg, env));
                   o.gas <= msg.gas && world == Settled(msg, env, o) && r == Executed(Charged(msg, env, o), o.failed)
      ensures r.Executed? && (env.london ==> Priced(msg, env)) ==>
                Wealth(world.balances) == Wealth(w.balances) - Cost(r.usedGas, Burn(env))
    {
      hide Conserving, Wealth, Credit, Cost, Charged, Settled, UpFront, DataGas, Priced, Needed, CanTransfer;
      var intrinsic := Intrinsic(msg, env);
      if intrinsic.None? { return Rejected(GasUintOverflow); }
      if gas < intrinsic.value { return Rejected(IntrinsicGas); }
      gas := gas - intrinsic.value;
      if msg.feeCap.Some? && msg.gasPrice <= msg.feeCap.value { StillHas(msg, w); }
      if msg.value > 0 && !CanTransfer(world.balances, msg.from, msg.value) {
        return Rejected(InsufficientFundsForTransfer);
      }
      if msg.to.Some? { world := world.(nonces := world.nonces[msg.from := Nonce(world, msg.from) + 1]); }
      var o := evm(world, msg, gas);
      Returns(evm, world, msg, gas);
      Finish(o);
      if env.london ==> Priced(msg, env) { SettledWealth(msg, env, w, o); }
      r := Executed(initialGas - gas, o.failed);
    }

    /** Refund, and pay the coinbase. */
    method Finish(o: Outcome)
      requires gp.Valid() && o.gas <= initialGas == msg.gas && gp.gas + initialGas < WORD
               && (env.london ==> msg.feeCap.Some?)
      modifies this, gp
      ensures gp.Valid() && gp.gas == old(gp.gas) + gas && world == Settled(msg, env, o)
      ensures gas + Charged(msg, env, o) == initialGas == old(initialGas)
    {
      hide Cost, Credit;
      world, gas := o.world, o.gas;
      if !env.london { RefundGas(REFUND_QUOTIENT, o.refund); } else { RefundGas(REFUND_QUOTIENT_EIP3529, o.refund); }
      var effectiveTip := msg.gasPrice;
      if env.london { effectiveTip := Min(msg.tipCap, msg.feeCap.value - env.baseFee); }
      world := Pay(world, env.coinbase, Cost(initialGas - gas, effectiveTip));
    }
  }

  /** A message whose gas falls one short of the charge for a plain transfer: refused, and its gas is gone. */
  method RefusedYetPaid() returns (r: Result, before: World, after: World, left: nat)
    ensures r == Rejected(IntrinsicGas) && left == 30000 - 20999
    ensures Balance(before.balances, 1) == 50000 && Balance(after.balances, 1) == 50000 - 20999
  {
    var msg := Message(1, Some(2), 0, true, 0, 20999, 1, Some(1), 1, [], []);
    var env := Env(true, true, false, 0, false, 3);
    before := World(map[1 := 50000], map[], {});
    var gp := new GasPool();
    gp.AddGas(30000);
    var st := new StateTransition((w, _, _) => Outcome(w, 0, 0, false), env, msg, gp, before);
    r := st.TransitionDb();
    after, left := st.world, gp.gas;
  }

  /** A plain transfer before London: the coinbase gets the price of all the gas that was used. */
  method CoinbaseIsPaid() returns (r: Result, after: World)
    ensures r == Executed(21000, false)
    ensures Balance(after.balances, 1) == 29000 && Balance(after.balances, 3) == 21000
  {
    hide Wealth;
    var msg := Message(1, Some(2), 0, true, 0, 21000, 1, Some(1), 1, [], []);
    var env := Env(true, true, false, 0, false, 3);
    var before := World(map[1 := 50000], map[], {});
    var gp := new GasPool();
    gp.AddGas(30000);
    var st := new StateTransition((w, _, _) => Outcome(w, 0, 0, false), env, msg, gp, before);
    r := st.TransitionDb();
    after := st.world;
  }

  lemma Returns(evm: Evm, w: World, msg: Message, gas: nat)
    requires Conserving(evm)
    ensures evm(w, msg, gas).gas <= gas && Wealth(evm(w, msg, gas).world.balances) == Wealth(w.balances)
  {
  }

  lemma StillHas(msg: Message, w: World)
    requires msg.feeCap.Some? && msg.gasPrice <= msg.feeCap.value && Balance(w.balances, msg.from) >= Needed(msg)
    ensures CanTransfer(Pay(w, msg.from, -Cost(msg.gas, msg.gasPrice)).balances, msg.from, msg.value)
  {
    Affordable(Balance(w.balances, msg.from), msg.gas, msg.gasPrice, msg.feeCap.value, msg.value);
  }

  lemma Share(used: nat, quotient: nat)
    requires quotient > 0
    ensures used / quotient <= used
  {
    var q := used / quotient;
    assert used == q * quotient + used % quotient;
    Multiple(q, quotient);
  }

  lemma {:induction false} Multiple(q: nat, k: nat)
    requires k > 0
    ensures q <= q * k
  {
    if q > 0 {
      Multiple(q - 1, k);
      assert q * k == (q - 1) * k + k;
    }
  }

  lemma PayWealth(w: World, a: Address, v: int)
    ensures Wealth(Pay(w, a, v).balances) == Wealth(w.balances) + v
  {
    WealthCredit(w.balances, a, v);
  }
}
