/**
 The transactions of a block, one after the other, on one gas pool.  `Processed` says what
 the first `k` of them lead to; the loop is proved to compute it, and the lemmas say that
 gas and ether add up after every prefix.
 */
module StateProcessor {
  import opened Wrappers
  import opened Numbers
  import opened GasPool
  import opened TransitionProofs
  import opened BalanceProofs
  import opened StateTransition

  /** The price fields of the transaction types. */
  datatype Fee = FixedPrice(price: nat) | Dynamic(tipCap: nat, feeCap: nat)

  /** A transaction; `sender` is what its signature recovers to, if it is valid. */
  datatype Transaction = Transaction(
    sender: Option<Address>, to: Option<Address>, nonce: nat, gas: nat, fee: Fee,
    value: nat, data: seq<byte>, accessList: seq<AccessTuple>
  )

  datatype Receipt = Receipt(cumulativeGasUsed: nat, gasUsed: nat, failed: bool)

  /** How far a block has come; `burned` totals the ether its calls destroyed. */
  datatype Progress = Progress(world: World, pool: nat, usedGas: nat, receipts: seq<Receipt>, burned: nat)

  function GasFeeCap(tx: Transaction): nat {
    if tx.fee.FixedPrice? then tx.fee.price else tx.fee.feeCap
  }

  function GasTipCap(tx: Transaction): nat {
    if tx.fee.FixedPrice? then tx.fee.price else tx.fee.tipCap
  }

  /** The price is the cap, or with a base fee the effective price. */
  function MessagePrice(tx: Transaction, baseFee: Option<nat>): nat {
    if baseFee.Some? then Min(GasTipCap(tx) + baseFee.value, GasFeeCap(tx)) else GasFeeCap(tx)
  }

  function AsMessage(tx: Transaction, baseFee: Option<nat>): (r: Result<Message>)
    ensures r.Ok? ==> PricedBy(r.value, baseFee)
    ensures r.Ok? <==> tx.sender.Some?
  {
    if tx.sender.None? then Err("invalid sender")
    else Ok(Message(tx.sender.value, tx.to, tx.nonce, tx.gas, MessagePrice(tx, baseFee), Some(GasFeeCap(tx)),
                    GasTipCap(tx), tx.value, tx.data, tx.accessList, false))
  }

  /** Between transactions the refund counter is cleared. */
  function Finalised(w: World): World {
    w.(refund := 0)
  }

  predicate WellFormed(txs: seq<Transaction>) {
    forall i :: 0 <= i < |txs| ==> txs[i].gas <= MAX_UINT64 && |txs[i].data| <= MAX_UINT64
  }

  /** The progress after a transaction that succeeded. */
  function Advanced(p: Progress, o: Outcome): Progress
    requires o.result.Ok?
  {
    var used := Uint64(p.usedGas + o.result.value.usedGas);
    Progress(Finalised(o.world), o.pool, used,
             p.receipts + [Receipt(used, o.result.value.usedGas, o.result.value.failed)],
             p.burned + o.result.value.burned)
  }

  /** One more transaction. */
  ghost function ProcessOne(p: Progress, tx: Transaction, ctx: Context, evm: Evm): Result<Progress>
    requires EvmSound(evm) && (ctx.london ==> ctx.baseFee.Some?)
  {
    var msg := AsMessage(tx, ctx.baseFee);
    if msg.Err? then Err(msg.message)
    else
      var o := Transition(p.world, p.pool, msg.value, ctx, evm);
      if o.result.Err? then Err(o.result.message) else Ok(Advanced(p, o))
  }

  /** The first `k` transactions of a block. */
  ghost function Processed(txs: seq<Transaction>, k: nat, w: World, gasLimit: nat, ctx: Context, evm: Evm)
    : Result<Progress>
    requires k <= |txs| && EvmSound(evm) && (ctx.london ==> ctx.baseFee.Some?)
  {
    if k == 0 then Ok(Progress(w, gasLimit, 0, [], 0))
    else
      var before := Processed(txs, k - 1, w, gasLimit, ctx, evm);
      if before.Err? then before else ProcessOne(before.value, txs[k - 1], ctx, evm)
  }

  /** A block fails as soon as one of its transactions does. */
  lemma {:induction false} FailureStays(txs: seq<Transaction>, k: nat, n: nat, w: World, gasLimit: nat,
                                        ctx: Context, evm: Evm)
    requires k <= n <= |txs| && EvmSound(evm) && (ctx.london ==> ctx.baseFee.Some?)
    requires Processed(txs, k, w, gasLimit, ctx, evm).Err?
    ensures Processed(txs, n, w, gasLimit, ctx, evm) == Processed(txs, k, w, gasLimit, ctx, evm)
    decreases n
  {
    hide Transition, EvmSound, ProcessOne;
    if k < n {
      FailureStays(txs, k, n - 1, w, gasLimit, ctx, evm);
    }
  }

  /** What the first transactions lead to does not depend on those behind them. */
  lemma {:induction false} OnlyThePrefix(txs: seq<Transaction>, more: seq<Transaction>, k: nat, w: World, gasLimit: nat,
                                         ctx: Context, evm: Evm)
    requires k <= |txs| && EvmSound(evm) && (ctx.london ==> ctx.baseFee.Some?)
    ensures Processed(txs + more, k, w, gasLimit, ctx, evm) == Processed(txs, k, w, gasLimit, ctx, evm)
    decreases k
  {
    hide Transition, EvmSound, ProcessOne;
    if k > 0 {
      OnlyThePrefix(txs, more, k - 1, w, gasLimit, ctx, evm);
    }
  }

  /** A block starts with the whole gas limit, and its last transaction is run on what the others have led to. */
  lemma OneMoreTransaction(txs: seq<Transaction>, tx: Transaction, w: World, gasLimit: nat, ctx: Context, evm: Evm)
    requires EvmSound(evm) && (ctx.london ==> ctx.baseFee.Some?)
    ensures Processed([], 0, w, gasLimit, ctx, evm) == Ok(Progress(w, gasLimit, 0, [], 0))
    ensures var before := Processed(txs, |txs|, w, gasLimit, ctx, evm);
      Processed(txs + [tx], |txs| + 1, w, gasLimit, ctx, evm)
      == if before.Err? then before else ProcessOne(before.value, tx, ctx, evm)
  {
    hide Transition, EvmSound, ProcessOne;
    OnlyThePrefix(txs, [tx], |txs|, w, gasLimit, ctx, evm);
    assert (txs + [tx])[|txs|] == tx;
  }

  method ApplyTransaction(msg: Message, ctx: Context, gp: GasPool, world: World, usedGas: nat, evm: Evm)
    returns (r: Result<Receipt>, after: World, used: nat, ghost burned: nat)
    requires gp.Valid() && EvmSound(evm) && msg.gas <= MAX_UINT64 && |msg.data| <= MAX_UINT64
    requires ctx.london ==> ctx.baseFee.Some? && msg.gasFeeCap.Some?
    modifies gp
    ensures gp.Valid()
    ensures var o := Transition(world, old(gp.gas), msg, ctx, evm);
      && gp.gas == o.pool
      && (r.Err? <==> o.result.Err?)
      && (r.Err? ==> r.message == o.result.message)
      && (r.Ok? ==>
            && after == Finalised(o.world)
            && used == Uint64(usedGas + o.result.value.usedGas)
            && r.value == Receipt(used, o.result.value.usedGas, o.result.value.failed)
            && burned == o.result.value.burned)
  {
    var st := new StateTransition(gp, msg, ctx, world);
    hide Transition, EvmSound;
    var result := st.TransitionDb(evm);
    if result.Err? {
      return Err(result.message), world, usedGas, 0;
    }
    after := Finalised(st.state);
    used := Uint64(usedGas + result.value.usedGas);
    return Ok(Receipt(used, result.value.usedGas, result.value.failed)), after, used, result.value.burned;
  }

  /** Runs a block: its receipts, the state it leads to, and the gas it used. */
  method Process(txs: seq<Transaction>, world: World, gasLimit: nat, ctx: Context, evm: Evm)
    returns (r: Result<(seq<Receipt>, nat)>, after: World)
    requires WellFormed(txs) && gasLimit <= MAX_UINT64 && EvmSound(evm)
    requires ctx.london ==> ctx.baseFee.Some?
    ensures var p := Processed(txs, |txs|, world, gasLimit, ctx, evm);
      && (r.Err? <==> p.Err?) && (r.Err? ==> r.message == p.message)
      && (r.Ok? ==> r.value == (p.value.receipts, p.value.usedGas) && after == p.value.world)
  {
    hide ProcessOne, EvmSound, Transition, PricedBy, Uint64;
    assert Processed(txs, 0, world, gasLimit, ctx, evm) == Ok(Progress(world, gasLimit, 0, [], 0));
    hide Processed;
    var receipts: seq<Receipt>, usedGas: nat := [], 0;
    after := world;
    var gp := new GasPool();
    var filled := gp.AddGas(gasLimit);
    ghost var burned: nat := 0;
    for i := 0 to |txs|
      invariant gp.Valid()
      invariant Processed(txs, i, world, gasLimit, ctx, evm) == Ok(Progress(after, gp.gas, usedGas, receipts, burned))
    {
      var msg := AsMessage(txs[i], ctx.baseFee);
      var receipt;
      ghost var more;
      StepFrom(txs, i, world, gasLimit, ctx, evm, Progress(after, gp.gas, usedGas, receipts, burned));
      if msg.Err? {
        FailureStays(txs, i + 1, |txs|, world, gasLimit, ctx, evm);
        return Err(msg.message), world;
      }
      receipt, after, usedGas, more := ApplyTransaction(msg.value, ctx, gp, after, usedGas, evm);
      if receipt.Err? {
        FailureStays(txs, i + 1, |txs|, world, gasLimit, ctx, evm);
        return Err(receipt.message), world;
      }
      receipts := receipts + [receipt.value];
      burned := burned + more;
    }
    return Ok((receipts, usedGas)), after;
  }

  /** How the next transaction goes on from there. */
  lemma StepFrom(txs: seq<Transaction>, k: nat, w: World, gasLimit: nat, ctx: Context, evm: Evm, p: Progress)
    requires k < |txs| && EvmSound(evm) && (ctx.london ==> ctx.baseFee.Some?)
    requires Processed(txs, k, w, gasLimit, ctx, evm) == Ok(p)
    ensures var after, msg := Processed(txs, k + 1, w, gasLimit, ctx, evm), AsMessage(txs[k], ctx.baseFee);
      if msg.Err? then after == Err(msg.message)
      else
        var o := Transition(p.world, p.pool, msg.value, ctx, evm);
        after == if o.result.Err? then Err(o.result.message) else Ok(Advanced(p, o))
  {
    hide Transition, EvmSound, Advanced;
  }

  /** What a block that has come as far as `k` transactions did last. */
  lemma LastStep(txs: seq<Transaction>, k: nat, w: World, gasLimit: nat, ctx: Context, evm: Evm)
    returns (p: Progress, m: Message, o: Outcome)
    requires 0 < k <= |txs| && EvmSound(evm) && (ctx.london ==> ctx.baseFee.Some?)
    requires Processed(txs, k, w, gasLimit, ctx, evm).Ok?
    ensures Processed(txs, k - 1, w, gasLimit, ctx, evm) == Ok(p)
    ensures AsMessage(txs[k - 1], ctx.baseFee) == Ok(m) && PricedBy(m, ctx.baseFee)
    ensures o == Transition(p.world, p.pool, m, ctx, evm) && o.result.Ok?
    ensures Processed(txs, k, w, gasLimit, ctx, evm) == Ok(Advanced(p, o))
  {
    hide Transition, EvmSound, PricedBy, Advanced;
    p := Processed(txs, k - 1, w, gasLimit, ctx, evm).value;
    m := AsMessage(txs[k - 1], ctx.baseFee).value;
    o := Transition(p.world, p.pool, m, ctx, evm);
  }

  function GasSum(receipts: seq<Receipt>): nat {
    if receipts == [] then 0 else GasSum(receipts[..|receipts| - 1]) + receipts[|receipts| - 1].gasUsed
  }

  /** After `k` transactions every unit of gas is in the pool or in the receipts. */
  ghost predicate GasBalanced(p: Progress, gasLimit: nat, k: nat) {
    && p.pool + p.usedGas == gasLimit
    && p.usedGas == GasSum(p.receipts) && |p.receipts| == k
    && forall i :: 0 <= i < k ==> p.receipts[i].cumulativeGasUsed == GasSum(p.receipts[..i + 1])
  }

  lemma GasStaysBalanced(p: Progress, o: Outcome, gasLimit: nat, k: nat)
    requires GasBalanced(p, gasLimit, k) && gasLimit <= MAX_UINT64
    requires o.result.Ok? && o.pool + o.result.value.usedGas == p.pool
    ensures GasBalanced(Advanced(p, o), gasLimit, k + 1)
    ensures Advanced(p, o).usedGas == p.usedGas + o.result.value.usedGas
  {
    var q := Advanced(p, o);
    assert q.receipts[..k] == p.receipts && q.receipts[..k + 1] == q.receipts;
    forall i | 0 <= i < k
      ensures q.receipts[i].cumulativeGasUsed == GasSum(q.receipts[..i + 1])
    {
      assert q.receipts[..i + 1] == p.receipts[..i + 1];
    }
  }

  /** Gas adds up after every prefix of a block, and the 64-bit counters never wrap. */
  lemma {:induction false} GasAddsUp(txs: seq<Transaction>, k: nat, w: World, gasLimit: nat, ctx: Context, evm: Evm)
    requires k <= |txs| && EvmSound(evm) && (ctx.london ==> ctx.baseFee.Some?)
    requires gasLimit <= MAX_UINT64 && Processed(txs, k, w, gasLimit, ctx, evm).Ok?
    ensures GasBalanced(Processed(txs, k, w, gasLimit, ctx, evm).value, gasLimit, k)
    decreases k
  {
    hide Transition, EvmSound, ProcessOne, Advanced, Intrinsic, IntrinsicSpec, PricedBy;
    if k > 0 {
      var p, m, o := LastStep(txs, k, w, gasLimit, ctx, evm);
      GasAddsUp(txs, k - 1, w, gasLimit, ctx, evm);
      GasIsAccountedFor(p.world, p.pool, m, ctx, evm);
      GasStaysBalanced(p, o, gasLimit, k - 1);
    }
  }

  /** Over a block ether disappears only as base fee for the gas used, and by what the EVM burns. */
  lemma {:induction false} EtherAddsUp(txs: seq<Transaction>, k: nat, w: World, gasLimit: nat, ctx: Context, evm: Evm)
    requires k <= |txs| && EvmSound(evm) && (ctx.london ==> ctx.baseFee.Some?)
    requires gasLimit <= MAX_UINT64 && Processed(txs, k, w, gasLimit, ctx, evm).Ok?
    ensures var p := Processed(txs, k, w, gasLimit, ctx, evm).value;
      Total(p.world.balances) == Total(w.balances) - p.burned
        - (if ctx.london then p.usedGas * ctx.baseFee.value else 0)
    decreases k
  {
    hide Transition, EvmSound, ProcessOne, Intrinsic, IntrinsicSpec, PricedBy, Uint64;
    if k > 0 {
      var p, m, o := LastStep(txs, k, w, gasLimit, ctx, evm);
      EtherAddsUp(txs, k - 1, w, gasLimit, ctx, evm);
      GasAddsUp(txs, k - 1, w, gasLimit, ctx, evm);
      GasIsAccountedFor(p.world, p.pool, m, ctx, evm);
      EtherIsConserved(p.world, p.pool, m, ctx, evm);
      GasStaysBalanced(p, o, gasLimit, k - 1);
      if ctx.london {
        FeesOf(p.usedGas, o.result.value.usedGas, ctx.baseFee.value);
      }
    }
  }

  lemma FeesOf(a: nat, b: nat, price: nat)
    ensures (a + b) * price == a * price + b * price
  {
  }

  /** None of the first `k` transactions leaves a base fee unpaid; with the base fee in force none can. */
  predicate AllPaid(txs: seq<Transaction>, k: nat, ctx: Context)
    requires k <= |txs|
  {
    forall i :: 0 <= i < k ==>
      var m := AsMessage(txs[i], ctx.baseFee);
      m.Ok? ==> !Unpaid(m.value, ctx)
  }

  /** Then nobody is ever driven below zero. */
  lemma {:induction false} BalancesStayNonNegative(txs: seq<Transaction>, k: nat, w: World, gasLimit: nat,
                                                   ctx: Context, evm: Evm)
    requires k <= |txs| && EvmSound(evm) && (ctx.london ==> ctx.baseFee.Some?) && AllPaid(txs, k, ctx)
    requires NonNegative(w) && Processed(txs, k, w, gasLimit, ctx, evm).Ok?
    ensures NonNegative(Processed(txs, k, w, gasLimit, ctx, evm).value.world)
    decreases k
  {
    hide Transition, EvmSound, ProcessOne, PricedBy, Uint64, Unpaid;
    if k > 0 {
      var p, m, o := LastStep(txs, k, w, gasLimit, ctx, evm);
      BalancesStayNonNegative(txs, k - 1, w, gasLimit, ctx, evm);
      NobodyGoesNegative(p.world, p.pool, m, ctx, evm);
    }
  }

  /** The least gas a transaction can come down to by refunds. */
  function LeastGas(ctx: Context): nat {
    if ctx.london then 16800 else 10500
  }

  lemma UsesLeastGas(intrinsic: nat, ctx: Context, used: nat)
    requires intrinsic >= TX_GAS
    requires if ctx.london then 5 * used >= 4 * intrinsic else 2 * used >= intrinsic
    ensures used >= LeastGas(ctx)
  {
  }

  lemma OneMore(k: nat, least: nat, sofar: nat, used: nat)
    requires k > 0 && (k - 1) * least <= sofar && least <= used
    ensures k * least <= sofar + used
  {
    assert k * least == (k - 1) * least + least;
  }

  /** Every transaction uses gas, so that a block holds only so many: after London at most one in 16800. */
  lemma {:induction false} BlocksAreBounded(txs: seq<Transaction>, k: nat, w: World, gasLimit: nat,
                                            ctx: Context, evm: Evm)
    requires k <= |txs| && EvmSound(evm) && (ctx.london ==> ctx.baseFee.Some?)
    requires gasLimit <= MAX_UINT64 && Processed(txs, k, w, gasLimit, ctx, evm).Ok?
    requires forall i :: 0 <= i < k ==>
      |txs[i].data| + |txs[i].accessList| + StorageKeys(txs[i].accessList) < 0x1_0000_0000_0000
    ensures k * LeastGas(ctx) <= Processed(txs, k, w, gasLimit, ctx, evm).value.usedGas <= gasLimit
    decreases k
  {
    hide Transition, EvmSound, ProcessOne, Advanced, IntrinsicSpec, PricedBy, LeastGas;
    GasAddsUp(txs, k, w, gasLimit, ctx, evm);
    if k > 0 {
      var p, m, o := LastStep(txs, k, w, gasLimit, ctx, evm);
      BlocksAreBounded(txs, k - 1, w, gasLimit, ctx, evm);
      GasAddsUp(txs, k - 1, w, gasLimit, ctx, evm);
      GasIsAccountedFor(p.world, p.pool, m, ctx, evm);
      GasStaysBalanced(p, o, gasLimit, k - 1);
      IntrinsicDoesNotWrap(m.data, m.accessList, m.to.None?, ctx.homestead, ctx.istanbul);
      UsesLeastGas(Intrinsic(m, ctx).value, ctx, o.result.value.usedGas);
      OneMore(k, LeastGas(ctx), p.usedGas, o.result.value.usedGas);
    }
  }
}
