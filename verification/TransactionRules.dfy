/**
 What the rules mean for a transaction, in its own fields: which transactions a block takes,
 what data and access list cost, what is charged, refunded and paid, and to whom.
 */
module TransactionRules {
  import opened Wrappers
  import opened Numbers
  import opened TransitionProofs
  import opened StateProcessor

  function CapOf(fee: Fee): nat {
    match fee
    case FixedPrice(price) => price
    case Dynamic(_, feeCap) => feeCap
  }

  function TipOf(fee: Fee): nat {
    match fee
    case FixedPrice(price) => price
    case Dynamic(tipCap, _) => tipCap
  }

  /** What a unit of gas costs the sender: the tip on top of the base fee, as far as the cap allows. */
  function PriceOf(fee: Fee, baseFee: Option<nat>): nat {
    match (fee, baseFee)
    case (Dynamic(tipCap, feeCap), Some(base)) => if tipCap + base <= feeCap then tipCap + base else feeCap
    case (Dynamic(_, feeCap), None) => feeCap
    case (FixedPrice(price), _) => price
  }

  /** The message of a transaction carries its fields, and the price in force. */
  lemma MessageOf(tx: Transaction, baseFee: Option<nat>)
    requires tx.sender.Some?
    ensures AsMessage(tx, baseFee) ==
      Ok(Message(tx.sender.value, tx.to, tx.nonce, tx.gas, PriceOf(tx.fee, baseFee), Some(CapOf(tx.fee)),
                 TipOf(tx.fee), tx.value, tx.data, tx.accessList, false))
  {
  }

  /** The fee rules of EIP-1559, which a call without fees may be exempt from. */
  predicate FeesAllowed(fee: Fee, ctx: Context)
    requires ctx.london ==> ctx.baseFee.Some?
  {
    || !ctx.london
    || (ctx.noBaseFee && CapOf(fee) == 0 && TipOf(fee) == 0)
    || (ctx.baseFee.value <= CapOf(fee) && TipOf(fee) <= CapOf(fee)
        && CapOf(fee) < 0x1_0000000000000000_0000000000000000_0000000000000000_0000000000000000)
  }

  /** What a transaction needs to be taken. */
  predicate Acceptable(w: World, pool: nat, tx: Transaction, ctx: Context)
    requires ctx.london ==> ctx.baseFee.Some?
  {
    && tx.sender.Some?
    && Nonce(w, tx.sender.value) == tx.nonce && tx.nonce != 0xFFFF_FFFF_FFFF_FFFF
    && tx.sender.value !in w.contracts
    && FeesAllowed(tx.fee, ctx)
    && Balance(w, tx.sender.value) >= tx.gas * CapOf(tx.fee) + tx.value
    && tx.gas <= pool
    && var intrinsic := IntrinsicSpec(tx.data, tx.accessList, tx.to.None?, ctx.homestead, ctx.istanbul);
    && intrinsic.Ok? && intrinsic.value <= tx.gas
  }

  lemma ChecksOfTransaction(w: World, tx: Transaction, ctx: Context)
    requires tx.sender.Some? && (ctx.london ==> ctx.baseFee.Some?)
    ensures PreChecked(w, AsMessage(tx, ctx.baseFee).value, ctx).Ok? <==>
      && Nonce(w, tx.sender.value) == tx.nonce && tx.nonce != 0xFFFF_FFFF_FFFF_FFFF
      && tx.sender.value !in w.contracts && FeesAllowed(tx.fee, ctx)
  {
  }

  /** A block takes a transaction exactly if it is acceptable. */
  lemma RunsExactly(p: Progress, tx: Transaction, ctx: Context, evm: Evm)
    requires EvmSound(evm) && (ctx.london ==> ctx.baseFee.Some?)
    ensures ProcessOne(p, tx, ctx, evm).Ok? <==> Acceptable(p.world, p.pool, tx, ctx)
  {
    hide EvmSound, PreChecked, IntrinsicSpec, Transition, FeesAllowed, Advanced;
    if tx.sender.Some? {
      MessageOf(tx, ctx.baseFee);
      ChecksOfTransaction(p.world, tx, ctx);
      SucceedsExactly(p.world, p.pool, AsMessage(tx, ctx.baseFee).value, ctx, evm);
    }
  }

  /** The world the EVM is given: gas is paid for at the price in force, and a call has used up the nonce. */
  ghost predicate StartsFrom(w: World, tx: Transaction, baseFee: Option<nat>, start: World)
    requires tx.sender.Some?
  {
    && (forall a :: Balance(start, a) ==
          Balance(w, a) - (if a == tx.sender.value then tx.gas * PriceOf(tx.fee, baseFee) else 0))
    && (forall a :: Nonce(start, a) ==
          Nonce(w, a) + (if a == tx.sender.value && tx.to.Some? then 1 else 0))
    && start.contracts == w.contracts && start.refund == w.refund
  }

  /**
   The end of a transaction: the sender gets the gas back that was not used, the producer
   gets what the used gas cost above the base fee, nobody else anything.
   */
  ghost predicate EndsWith(out: World, tx: Transaction, ctx: Context, used: nat, end: World)
    requires tx.sender.Some? && used <= tx.gas && (ctx.london ==> ctx.baseFee.Some?)
  {
    var price := PriceOf(tx.fee, ctx.baseFee);
    && (forall a :: Balance(end, a) == Balance(out, a)
          + (if a == tx.sender.value then (tx.gas - used) * price else 0)
          + (if a == ctx.coinbase then used * (price - if ctx.london then ctx.baseFee.value else 0) else 0))
    && end.nonces == out.nonces && end.contracts == out.contracts && end.refund == 0
  }

  lemma StartOfTransaction(w: World, tx: Transaction, ctx: Context)
    requires tx.sender.Some? && Nonce(w, tx.sender.value) == tx.nonce < 0xFFFF_FFFF_FFFF_FFFF
    ensures StartsFrom(w, tx, ctx.baseFee, CallWorld(w, AsMessage(tx, ctx.baseFee).value))
  {
    MessageOf(tx, ctx.baseFee);
    hide AsMessage;
  }

  lemma EndOfTransaction(out: EvmOutcome, tx: Transaction, ctx: Context)
    requires tx.sender.Some? && out.gasLeft <= tx.gas && (ctx.london ==> ctx.baseFee.Some?)
    ensures var m := AsMessage(tx, ctx.baseFee).value;
      EndsWith(out.world, tx, ctx, GasUsed(m, ctx, out), Finalised(Settled(m, ctx, out)))
  {
    MessageOf(tx, ctx.baseFee);
    var m := AsMessage(tx, ctx.baseFee).value;
    hide AsMessage, GasUsed;
    var used := GasUsed(m, ctx, out);
    if ctx.london {
      PriceSplits(m, ctx);
    }
    hide EffectiveTip, PriceOf;
    forall a
      ensures Balance(Finalised(Settled(m, ctx, out)), a) == Balance(Settled(m, ctx, out), a)
    {
    }
    forall a
      ensures Balance(Settled(m, ctx, out), a) == Balance(out.world, a)
        + (if a == m.from then (m.gas - used) * m.gasPrice else 0)
        + (if a == ctx.coinbase then used * EffectiveTip(m, ctx) else 0)
    {
      SettledBalances(m, ctx, out, a);
    }
  }

  /**
   A transaction that is taken, from its own fields: what the EVM is given, how much gas is
   used in the end, who pays and is paid, and what receipt and counters say.
   */
  lemma TransactionPays(p: Progress, tx: Transaction, ctx: Context, evm: Evm)
    returns (start: World, m: Message, intrinsic: nat, out: EvmOutcome, used: nat)
    requires EvmSound(evm) && (ctx.london ==> ctx.baseFee.Some?) && tx.nonce <= 0xFFFF_FFFF_FFFF_FFFF
    requires ProcessOne(p, tx, ctx, evm).Ok?
    ensures tx.sender.Some? && AsMessage(tx, ctx.baseFee) == Ok(m)
    ensures IntrinsicSpec(tx.data, tx.accessList, tx.to.None?, ctx.homestead, ctx.istanbul) == Ok(intrinsic)
    ensures intrinsic <= tx.gas && StartsFrom(p.world, tx, ctx.baseFee, start)
    ensures out == evm(start, m, tx.gas - intrinsic) && out.gasLeft <= tx.gas - intrinsic
    ensures used <= tx.gas && UsedOf(tx.gas - out.gasLeft, out.world.refund, ctx.london, used)
    ensures var after := ProcessOne(p, tx, ctx, evm).value;
      && EndsWith(out.world, tx, ctx, used, after.world)
      && after.pool == p.pool - used && after.burned == p.burned + out.burned
      && after.usedGas == Uint64(p.usedGas + used)
      && after.receipts == p.receipts + [Receipt(after.usedGas, used, out.failed)]
  {
    hide AsMessage, PreChecked, IntrinsicSpec, FeesAllowed, Uint64, StartsFrom, EndsWith, EvmSound, PriceOf;
    hide UsedOf, ProcessOne, Transition, Advanced, Settled, Finalised, GasUsed, CallWorld, SoundOutcome;
    Taken(p, tx, ctx, evm);
    MessageOf(tx, ctx.baseFee);
    m := AsMessage(tx, ctx.baseFee).value;
    StartOfTransaction(p.world, tx, ctx);
    start := CallWorld(p.world, m);
    intrinsic, out := RefundExactly(p.world, p.pool, m, ctx, evm);
    var again, same := Succeeded(p.world, p.pool, m, ctx, evm);
    EndOfTransaction(out, tx, ctx);
    used := GasUsed(m, ctx, out);
    ProgressAfter(p, Transition(p.world, p.pool, m, ctx, evm));
  }

  lemma Taken(p: Progress, tx: Transaction, ctx: Context, evm: Evm)
    requires EvmSound(evm) && (ctx.london ==> ctx.baseFee.Some?) && ProcessOne(p, tx, ctx, evm).Ok?
    ensures tx.sender.Some? && Nonce(p.world, tx.sender.value) == tx.nonce != 0xFFFF_FFFF_FFFF_FFFF
    ensures var o := Transition(p.world, p.pool, AsMessage(tx, ctx.baseFee).value, ctx, evm);
      o.result.Ok? && ProcessOne(p, tx, ctx, evm) == Ok(Advanced(p, o))
  {
    RunsExactly(p, tx, ctx, evm);
    hide EvmSound, Transition, Advanced, IntrinsicSpec, FeesAllowed;
  }

  lemma ProgressAfter(p: Progress, o: Outcome)
    requires o.result.Ok?
    ensures var after, used := Advanced(p, o), o.result.value.usedGas;
      && after.world == Finalised(o.world) && after.pool == o.pool
      && after.usedGas == Uint64(p.usedGas + used) && after.burned == p.burned + o.result.value.burned
      && after.receipts == p.receipts + [Receipt(after.usedGas, used, o.result.value.failed)]
  {
  }

  /** Every byte of the data is zero or not. */
  lemma {:induction false} BytesAreCounted(data: seq<byte>)
    ensures NonZeroBytes(data) + multiset(data)[0] == |data|
  {
    if data != [] {
      BytesAreCounted(data[..|data| - 1]);
      assert data == data[..|data| - 1] + [data[|data| - 1]];
    }
  }

  /** All storage keys of an access list, one after the other. */
  function KeysOf(list: seq<AccessTuple>): seq<nat> {
    if list == [] then [] else list[0].storageKeys + KeysOf(list[1..])
  }

  lemma {:induction false} KeysConcat(a: seq<AccessTuple>, b: seq<AccessTuple>)
    ensures KeysOf(a + b) == KeysOf(a) + KeysOf(b)
    decreases |a|
  {
    if a == [] {
      assert a + b == b;
    } else {
      KeysConcat(a[1..], b);
      assert (a + b)[1..] == a[1..] + b;
    }
  }

  lemma {:induction false} KeysAreCounted(list: seq<AccessTuple>)
    ensures StorageKeys(list) == |KeysOf(list)|
  {
    if list != [] {
      var init, last := list[..|list| - 1], list[|list| - 1];
      KeysAreCounted(init);
      KeysConcat(init, [last]);
      assert list == init + [last] && [last][1..] == [];
    }
  }

  /**
   Intrinsic gas in numbers: 21000, or 53000 for a creation since Homestead; 4 for a zero
   byte, 16 (68 before Istanbul) for any other; 2400 for an address and 1900 for a key of
   the access list.
   */
  lemma IntrinsicInNumbers(data: seq<byte>, list: seq<AccessTuple>, creation: bool, homestead: bool, istanbul: bool)
    requires |data| + |list| + |KeysOf(list)| < 0x1_0000_0000_0000
    ensures var zeros := multiset(data)[0];
      IntrinsicSpec(data, list, creation, homestead, istanbul) == Ok(
        (if creation && homestead then 53000 else 21000)
        + zeros * 4 + (|data| - zeros) * (if istanbul then 16 else 68)
        + |list| * 2400 + |KeysOf(list)| * 1900)
  {
    BytesAreCounted(data);
    KeysAreCounted(list);
    IntrinsicDoesNotWrap(data, list, creation, homestead, istanbul);
    hide NonZeroBytes, StorageKeys, KeysOf, IntrinsicSpec;
  }

  /** What a transaction is refused for, in the order of the checks, without a trace in state or pool. */
  lemma RefusedFor(w: World, pool: nat, m: Message, ctx: Context, evm: Evm)
    requires EvmSound(evm) && (ctx.london ==> ctx.baseFee.Some? && m.gasFeeCap.Some?) && !m.isFake
    ensures var o, n := Transition(w, pool, m, ctx, evm), Nonce(w, m.from);
      && (n < m.nonce ==> o == Outcome(Err("nonce too high"), w, pool))
      && (n > m.nonce ==> o == Outcome(Err("nonce too low"), w, pool))
      && (n == m.nonce == 0xFFFF_FFFF_FFFF_FFFF ==> o == Outcome(Err("nonce has max value"), w, pool))
      && (n == m.nonce != 0xFFFF_FFFF_FFFF_FFFF && m.from in w.contracts ==>
            o == Outcome(Err("sender not an eoa"), w, pool))
  {
    hide EvmSound, IntrinsicSpec, Settled, Bought, FundsNeeded;
  }

  /** The funds a message has to show: gas at the fee cap and the value, or without a cap just gas at the price. */
  lemma RefusedForFunds(w: World, pool: nat, m: Message, ctx: Context, evm: Evm)
    requires EvmSound(evm) && (ctx.london ==> ctx.baseFee.Some? && m.gasFeeCap.Some?)
    requires PreChecked(w, m, ctx).Ok?
    ensures var o := Transition(w, pool, m, ctx, evm);
      var needed := if m.gasFeeCap.Some? then m.gas * m.gasFeeCap.value + m.value else m.gas * m.gasPrice;
      && (Balance(w, m.from) < needed ==>
            o == Outcome(Err("insufficient funds for gas * price + value"), w, pool))
      && (Balance(w, m.from) >= needed && pool < m.gas ==> o == Outcome(Err("gas limit reached"), w, pool))
  {
    hide EvmSound, IntrinsicSpec, Settled, Bought, PreChecked;
  }

  /** Failures after gas has been bought keep the gas and its price. */
  lemma RefusedLate(w: World, pool: nat, m: Message, ctx: Context, evm: Evm)
    requires EvmSound(evm) && (ctx.london ==> ctx.baseFee.Some? && m.gasFeeCap.Some?)
    requires PreChecked(w, m, ctx).Ok? && Balance(w, m.from) >= FundsNeeded(m) && m.gas <= pool
    ensures var o := Transition(w, pool, m, ctx, evm);
      && (Intrinsic(m, ctx).Ok? && m.gas < Intrinsic(m, ctx).value ==> o.result == Err("intrinsic gas too low"))
      && (Intrinsic(m, ctx).Ok? && m.gas >= Intrinsic(m, ctx).value
          && m.value > 0 && Balance(w, m.from) - m.gas * m.gasPrice < m.value ==>
            o.result == Err("insufficient funds for transfer"))
      && (o.result.Err? ==>
            && o.pool == pool - m.gas
            && forall a :: Balance(o.world, a) == Balance(w, a) - if a == m.from then m.gas * m.gasPrice else 0)
  {
    hide EvmSound, IntrinsicSpec, Settled, PreChecked, FundsNeeded;
  }
}
