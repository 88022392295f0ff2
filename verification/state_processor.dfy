/** Processing the transactions of a block against one gas pool. */
module StateProcessors {
  import opened Transactions
  import opened Ledgers
  import opened StateTransitions
  import opened Words

  datatype Receipt = Receipt(gasUsed: nat, cumulativeGasUsed: nat, failed: bool)

  /** `left` is what remains in the gas pool. */
  datatype BlockResult =
    | Processed(receipts: seq<Receipt>, usedGas: nat, left: nat, world: World)
    | NoSender(index: nat)
    | Refused(index: nat, error: Error)

  /** The gas of all receipts together. */
  function Used(receipts: seq<Receipt>): nat {
    if receipts == [] then 0 else Used(receipts[..|receipts| - 1]) + receipts[|receipts| - 1].gasUsed
  }

  lemma UsedMore(receipts: seq<Receipt>, r: Receipt)
    ensures Used(receipts + [r]) == Used(receipts) + r.gasUsed
  {
    assert (receipts + [r])[..|receipts|] == receipts;
  }

  lemma CostMore(a: int, b: int, price: int)
    ensures Cost(a + b, price) == Cost(a, price) + Cost(b, price)
  {
  }

  /** Messages of a block: gas in 64 bits, and priced by their caps and the base fee. None stands for a transaction
      whose sender cannot be recovered. */
  ghost predicate OfBlock(txs: seq<Option<Message>>, env: Env) {
    forall i :: 0 <= i < |txs| && txs[i].Some? ==> txs[i].value.gas < WORD && Priced(txs[i].value, env)
  }

  /** The i-th receipt carries the running total, and its transaction found its whole gas limit in the pool. */
  ghost predicate InStep(receipts: seq<Receipt>, i: nat, txs: seq<Option<Message>>, gasLimit: nat)
    requires i < |receipts| <= |txs|
  {
    && txs[i].Some? && receipts[i].gasUsed <= txs[i].value.gas
    && receipts[i].cumulativeGasUsed == Used(receipts[..i + 1])
    && Used(receipts[..i]) + txs[i].value.gas <= gasLimit
  }

  ghost predicate Running(receipts: seq<Receipt>, txs: seq<Option<Message>>, gasLimit: nat)
    requires |receipts| <= |txs|
  {
    forall i :: 0 <= i < |receipts| ==> InStep(receipts, i, txs, gasLimit)
  }

  lemma InStepMore(receipts: seq<Receipt>, r: Receipt, i: nat, txs: seq<Option<Message>>, gasLimit: nat)
    requires i < |receipts| < |txs| && InStep(receipts, i, txs, gasLimit)
    ensures InStep(receipts + [r], i, txs, gasLimit)
  {
    hide Used;
    assert (receipts + [r])[..i] == receipts[..i] && (receipts + [r])[..i + 1] == receipts[..i + 1];
  }

  lemma RunningMore(receipts: seq<Receipt>, r: Receipt, txs: seq<Option<Message>>, gasLimit: nat)
    requires |receipts| < |txs| && Running(receipts, txs, gasLimit) && txs[|receipts|].Some?
    requires r.gasUsed <= txs[|receipts|].value.gas && Used(receipts) + txs[|receipts|].value.gas <= gasLimit
    requires r.cumulativeGasUsed == Used(receipts) + r.gasUsed
    ensures Running(receipts + [r], txs, gasLimit)
  {
    var all := receipts + [r];
    assert InStep(all, |receipts|, txs, gasLimit) by {
      hide Used;
      UsedMore(receipts, r);
      assert all[..|receipts|] == receipts && all[..|receipts| + 1] == all;
    }
    hide InStep;
    forall i | 0 <= i < |receipts|
      ensures InStep(all, i, txs, gasLimit)
    {
      InStepMore(receipts, r, i, txs, gasLimit);
    }
  }

  /** Why a message is turned away, before it paid for its gas or after. */
  ghost predicate RefusedFor(error: Error, msg: Message, env: Env, world: World, gas: nat)
    requires env.london ==> msg.feeCap.Some?
  {
    if !Admitted(msg, env, world, gas) then Reason(error, msg, env, world, gas)
    else !Runnable(msg, env, world) && LateReason(error, msg, env, world)
  }

  // ----- whole blocks, seen from outside -----

  /** Between two transactions: the world, and the gas used so far. */
  datatype Turn = Turn(world: World, used: nat)

  /** What a message that is executed makes of it. */
  ghost function Applied(evm: Evm, env: Env, msg: Message, t: Turn): Turn
    requires Conserving(evm) && Priced(msg, env) && UpFront(msg, env) <= msg.gas
  {
    var o := evm(Entry(msg, t.world), msg, msg.gas - UpFront(msg, env));
    Turn(Settled(msg, env, o), t.used + Charged(msg, env, o))
  }

  /** Whether its execution fails, which the receipt records. */
  ghost predicate Fails(evm: Evm, env: Env, msg: Message, t: Turn)
    requires UpFront(msg, env) <= msg.gas
  {
    evm(Entry(msg, t.world), msg, msg.gas - UpFront(msg, env)).failed
  }

  /** The i-th receipt says how the i-th transaction, which passes, went. */
  ghost predicate Records(evm: Evm, env: Env, gasLimit: nat, txs: seq<Option<Message>>, world: World, i: nat,
                          r: Receipt)
    requires Conserving(evm) && i < |txs|
  {
    var t := After(evm, env, gasLimit, txs[..i], world);
    && Passes(txs[i], env, t, gasLimit) && (r.failed <==> Fails(evm, env, txs[i].value, t))
    && t.used + r.gasUsed == After(evm, env, gasLimit, txs[..i + 1], world).used == r.cumulativeGasUsed
  }

  /** The transaction has a sender, is admitted with the gas that is left, and can run. */
  ghost predicate Passes(tx: Option<Message>, env: Env, t: Turn, gasLimit: nat) {
    && tx.Some? && Priced(tx.value, env) && t.used <= gasLimit
    && Admitted(tx.value, env, t.world, gasLimit - t.used) && Runnable(tx.value, env, t.world)
  }

  /** The state after these transactions, those that do not pass left aside. */
  ghost function After(evm: Evm, env: Env, gasLimit: nat, txs: seq<Option<Message>>, world: World): Turn
    requires Conserving(evm)
  {
    if txs == [] then Turn(world, 0)
    else
      var t, tx := After(evm, env, gasLimit, txs[..|txs| - 1], world), txs[|txs| - 1];
      if Passes(tx, env, t, gasLimit) then Applied(evm, env, tx.value, t) else t
  }

  lemma AfterNext(evm: Evm, env: Env, gasLimit: nat, txs: seq<Option<Message>>, world: World, i: nat)
    requires Conserving(evm) && i < |txs|
    ensures var t := After(evm, env, gasLimit, txs[..i], world);
            After(evm, env, gasLimit, txs[..i + 1], world)
            == if Passes(txs[i], env, t, gasLimit) then Applied(evm, env, txs[i].value, t) else t
  {
    assert txs[..i + 1][..i] == txs[..i];
  }

  /** Every transaction before the i-th passes when its turn comes. */
  ghost predicate PassUpTo(evm: Evm, env: Env, gasLimit: nat, txs: seq<Option<Message>>, world: World, i: nat)
    requires Conserving(evm) && i <= |txs|
  {
    forall k :: 0 <= k < i ==> Passes(txs[k], env, After(evm, env, gasLimit, txs[..k], world), gasLimit)
  }

  /** One transaction: its message applied, its gas added to the total, its receipt. */
  method ApplyTransaction(evm: Evm, env: Env, msg: Message, gp: GasPool, world: World, usedGas: nat)
    returns (r: Result, receipt: Receipt, next: World)
    requires gp.Valid() && Conserving(evm) && msg.gas < WORD && Priced(msg, env)
    modifies gp
    ensures gp.Valid()
    // executed exactly when nothing stands against it, else refused for what does
    ensures r.Executed? <==> Admitted(msg, env, world, old(gp.gas)) && Runnable(msg, env, world)
    ensures r.Rejected? ==> RefusedFor(r.error, msg, env, world, old(gp.gas))
    ensures r.Executed? ==>
              && r.usedGas <= msg.gas <= old(gp.gas) && gp.gas == old(gp.gas) - r.usedGas
              && receipt == Receipt(r.usedGas, usedGas + r.usedGas, r.failed)
              && Wealth(next.balances) == Wealth(world.balances) - Cost(r.usedGas, Burn(env))
              && UpFront(msg, env) <= msg.gas
              && Turn(next, usedGas + r.usedGas) == Applied(evm, env, msg, Turn(world, usedGas))
              && (r.failed <==> Fails(evm, env, msg, Turn(world, usedGas)))
    ensures r != Rejected(InsufficientFundsForTransfer)
  {
    hide Conserving, Wealth, Cost, Charged, Settled, Entry, UpFront, Reason, LateReason;
    var st := new StateTransition(evm, env, msg, gp, world);
    r := st.TransitionDb();
    next := st.world;
    receipt := Receipt(0, 0, false);
    if r.Executed? { receipt := Receipt(r.usedGas, usedGas + r.usedGas, r.failed); }
  }

  /** All transactions of a block in order. */
  method Process(evm: Evm, env: Env, gasLimit: nat, txs: seq<Option<Message>>, world: World) returns (r: BlockResult)
    requires Conserving(evm) && gasLimit < WORD && OfBlock(txs, env)
    // processed exactly when every transaction passes when its turn comes
    ensures r.Processed? <==> PassUpTo(evm, env, gasLimit, txs, world, |txs|)
    ensures r.Processed? ==>
              && |r.receipts| == |txs| && Running(r.receipts, txs, gasLimit) && r.usedGas == Used(r.receipts)
              && r.left + r.usedGas == gasLimit && Turn(r.world, r.usedGas) == After(evm, env, gasLimit, txs, world)
              && Wealth(r.world.balances) == Wealth(world.balances) - Cost(r.usedGas, Burn(env))
    ensures r.Processed? ==>
              |r.receipts| == |txs|
              && forall i :: 0 <= i < |txs| ==> Records(evm, env, gasLimit, txs, world, i, r.receipts[i])
    // otherwise the first that does not is named, with the reason
    ensures !r.Processed? ==> r.index < |txs| && PassUpTo(evm, env, gasLimit, txs, world, r.index)
    ensures r.NoSender? ==> txs[r.index].None?
    ensures r.Refused? ==>
              var t := After(evm, env, gasLimit, txs[..r.index], world);
              && txs[r.index].Some? && t.used <= gasLimit && r.error != InsufficientFundsForTransfer
              && RefusedFor(r.error, txs[r.index].value, env, t.world, gasLimit - t.used)
  {
    hide Conserving, Wealth, Cost, Running, Used, After, Applied, Passes, RefusedFor, Fails;
    var receipts: seq<Receipt>, usedGas: nat, state := [], 0, world;
    var gp := new GasPool();
    gp.AddGas(gasLimit);
    Nothing(txs, gasLimit, Burn(env));
    AfterNone(evm, env, gasLimit, txs, world);
    for i := 0 to |txs|
      invariant gp.Valid() && gp.gas + usedGas == gasLimit && usedGas == Used(receipts)
      invariant |receipts| == i && Running(receipts, txs, gasLimit)
      invariant Wealth(state.balances) == Wealth(world.balances) - Cost(usedGas, Burn(env))
      invariant Turn(state, usedGas) == After(evm, env, gasLimit, txs[..i], world)
      invariant PassUpTo(evm, env, gasLimit, txs, world, i)
      invariant forall k :: 0 <= k < i ==> Records(evm, env, gasLimit, txs, world, k, receipts[k])
    {
      AfterNext(evm, env, gasLimit, txs, world, i);
      PassesMeans(txs[i], env, Turn(state, usedGas), gasLimit);
      if txs[i].None? { return NoSender(i); }
      var result, receipt, next := ApplyTransaction(evm, env, txs[i].value, gp, state, usedGas);
      if result.Rejected? { return Refused(i, result.error); }
      assert Records(evm, env, gasLimit, txs, world, i, receipt);
      RunningMore(receipts, receipt, txs, gasLimit);
      UsedMore(receipts, receipt);
      CostMore(usedGas, result.usedGas, Burn(env));
      state, usedGas, receipts := next, usedGas + result.usedGas, receipts + [receipt];
    }
    assert txs[..|txs|] == txs;
    r := Processed(receipts, usedGas, gp.gas, state);
  }

  lemma AfterNone(evm: Evm, env: Env, gasLimit: nat, txs: seq<Option<Message>>, world: World)
    requires Conserving(evm)
    ensures After(evm, env, gasLimit, txs[..0], world) == Turn(world, 0)
  {
  }

  lemma PassesMeans(tx: Option<Message>, env: Env, t: Turn, gasLimit: nat)
    requires t.used <= gasLimit && (tx.Some? ==> Priced(tx.value, env))
    ensures Passes(tx, env, t, gasLimit) <==>
              tx.Some? && Admitted(tx.value, env, t.world, gasLimit - t.used) && Runnable(tx.value, env, t.world)
  {
  }

  lemma Nothing(txs: seq<Option<Message>>, gasLimit: nat, price: int)
    ensures Running([], txs, gasLimit) && Used([]) == 0 && Cost(0, price) == 0
  {
  }
}
