/**
 Who can end a transaction with a negative balance.  Charging, refunding and paying the
 producer never drive anybody below zero, except the producer of a call that pays nothing
 while the base fee is switched off: the base fee is then taken out of the tip.
 */
module BalanceProofs {
  import opened Wrappers
  import opened Numbers
  import opened TransitionProofs

  /** A call that offers nothing, where the base fee need not be covered. */
  predicate FreeCall(m: Message, ctx: Context) {
    ctx.london && ctx.noBaseFee && m.gasFeeCap == Some(0) && m.gasTipCap == 0
  }

  /** A free call in a block that has a base fee. */
  predicate Unpaid(m: Message, ctx: Context) {
    FreeCall(m, ctx) && ctx.baseFee.Some? && ctx.baseFee.value > 0
  }

  /** Passing the checks covers the base fee, unless it is switched off for a free call. */
  lemma CheckedCoversBaseFee(w: World, m: Message, ctx: Context)
    requires ctx.london && ctx.baseFee.Some? && m.gasFeeCap.Some? && PreChecked(w, m, ctx).Ok?
    ensures m.gasFeeCap.value >= ctx.baseFee.value || Unpaid(m, ctx)
  {
  }

  /** Whoever has the funds asked for can pay for the gas. */
  lemma GasIsAffordable(w: World, m: Message)
    requires NonNegative(w) && Balance(w, m.from) >= FundsNeeded(m)
    requires m.gasFeeCap.Some? ==> m.gasPrice <= m.gasFeeCap.value
    ensures NonNegative(Bought(w, m)) && NonNegative(CallWorld(w, m))
  {
    if m.gasFeeCap.Some? {
      ValueIsLeft(w, m);
    }
  }

  lemma SettledNonNegative(m: Message, ctx: Context, out: EvmOutcome)
    requires ctx.london ==> ctx.baseFee.Some? && PricedBy(m, ctx.baseFee) && m.gasFeeCap.value >= ctx.baseFee.value
    requires out.gasLeft <= m.gas && NonNegative(out.world)
    ensures NonNegative(Settled(m, ctx, out))
  {
    if ctx.london {
      PriceSplits(m, ctx);
    }
    assert EffectiveTip(m, ctx) >= 0;
    hide GasUsed, EffectiveTip;
    var used := GasUsed(m, ctx, out);
    NonNegativeProduct(m.gas - used, m.gasPrice);
    NonNegativeProduct(used, EffectiveTip(m, ctx));
  }

  lemma NonNegativeProduct(a: int, b: int)
    requires a >= 0 && b >= 0
    ensures a * b >= 0
  {
  }

  /** No balance goes below zero, unless a base fee is left unpaid. */
  lemma NobodyGoesNegative(w: World, pool: nat, m: Message, ctx: Context, evm: Evm)
    requires ctx.london ==> ctx.baseFee.Some?
    requires PricedBy(m, ctx.baseFee) && EvmSound(evm) && NonNegative(w) && !Unpaid(m, ctx)
    ensures NonNegative(Transition(w, pool, m, ctx, evm).world)
  {
    if Transition(w, pool, m, ctx, evm).result.Ok? {
      var intrinsic, out := Succeeded(w, pool, m, ctx, evm);
      GasIsAffordable(w, m);
      if ctx.london {
        CheckedCoversBaseFee(w, m, ctx);
      }
      hide Transition, EvmSound, Settled, PricedBy, Intrinsic;
      SettledNonNegative(m, ctx, out);
    } else {
      FailureIsHarmless(w, pool, m, ctx, evm);
    }
  }

  /** A failed transaction at most leaves gas bought, which was affordable. */
  lemma FailureIsHarmless(w: World, pool: nat, m: Message, ctx: Context, evm: Evm)
    requires ctx.london ==> ctx.baseFee.Some?
    requires PricedBy(m, ctx.baseFee) && EvmSound(evm) && NonNegative(w)
    requires Transition(w, pool, m, ctx, evm).result.Err?
    ensures NonNegative(Transition(w, pool, m, ctx, evm).world)
  {
    if Balance(w, m.from) >= FundsNeeded(m) {
      GasIsAffordable(w, m);
    }
    hide IntrinsicSpec, PricedBy, Bought, FundsNeeded, EvmSound;
  }

  /** Whatever is paid or not, nobody but the producer goes below zero: neither the sender nor anybody else. */
  lemma OnlyProducerGoesNegative(w: World, pool: nat, m: Message, ctx: Context, evm: Evm, a: Address)
    requires ctx.london ==> ctx.baseFee.Some?
    requires PricedBy(m, ctx.baseFee) && EvmSound(evm) && NonNegative(w) && a != ctx.coinbase
    ensures Balance(Transition(w, pool, m, ctx, evm).world, a) >= 0
  {
    if Transition(w, pool, m, ctx, evm).result.Ok? {
      var intrinsic, out := Succeeded(w, pool, m, ctx, evm);
      GasIsAffordable(w, m);
      SettledBalances(m, ctx, out, a);
      NonNegativeProduct(m.gas - GasUsed(m, ctx, out), m.gasPrice);
      hide Transition, EvmSound, Settled, PricedBy, Intrinsic, GasUsed;
    } else {
      FailureIsHarmless(w, pool, m, ctx, evm);
    }
  }

  /** A free call takes the base fee for the gas it used out of the producer's balance, whoever sent it. */
  lemma FreeCallCostsProducer(m: Message, ctx: Context, out: EvmOutcome)
    requires FreeCall(m, ctx) && ctx.baseFee.Some? && PricedBy(m, ctx.baseFee) && out.gasLeft <= m.gas
    ensures Balance(Settled(m, ctx, out), ctx.coinbase)
         == Balance(out.world, ctx.coinbase) - GasUsed(m, ctx, out) * ctx.baseFee.value
  {
    var used := GasUsed(m, ctx, out);
    SettledBalances(m, ctx, out, ctx.coinbase);
    assert m.gasPrice == 0 && EffectiveTip(m, ctx) == -(ctx.baseFee.value as int);
    hide GasUsed, Settled, EffectiveTip;
    assert (m.gas - used) * 0 == 0;
    NegativeFactor(used, ctx.baseFee.value);
  }

  lemma NegativeFactor(a: nat, b: nat)
    ensures a * -(b as int) == -(a * b)
  {
  }

  /** So a successful free call leaves everybody non-negative exactly if the producer could pay. */
  lemma FreeCallIsSafeExactly(w: World, pool: nat, m: Message, ctx: Context, evm: Evm)
    returns (intrinsic: nat, out: EvmOutcome)
    requires ctx.london && ctx.baseFee.Some? && FreeCall(m, ctx)
    requires PricedBy(m, ctx.baseFee) && EvmSound(evm) && NonNegative(w)
    requires Transition(w, pool, m, ctx, evm).result.Ok?
    ensures Intrinsic(m, ctx) == Ok(intrinsic) && intrinsic <= m.gas
    ensures out == evm(CallWorld(w, m), m, m.gas - intrinsic)
    ensures var after := Transition(w, pool, m, ctx, evm);
      NonNegative(after.world) <==>
      Balance(out.world, ctx.coinbase) >= after.result.value.usedGas * ctx.baseFee.value
  {
    intrinsic, out := Succeeded(w, pool, m, ctx, evm);
    GasIsAffordable(w, m);
    FreeCallCostsProducer(m, ctx, out);
    var after := Transition(w, pool, m, ctx, evm).world;
    forall a | a in after.balances && a != ctx.coinbase
      ensures after.balances[a] >= 0
    {
      OnlyProducerGoesNegative(w, pool, m, ctx, evm, a);
    }
    hide Transition, EvmSound, PricedBy, Intrinsic, GasUsed, EffectiveTip, SoundOutcome;
    assert ctx.coinbase in after.balances;
  }

  /** Can the message succeed at all?  Its nonce is not the last one, and its gas covers what it needs. */
  predicate Runnable(m: Message, ctx: Context) {
    && (m.isFake || m.nonce < MAX_UINT64)
    && m.gas > 0 && Intrinsic(m, ctx).Ok? && Intrinsic(m, ctx).value <= m.gas
  }

  /** The message leaves nobody negative, in any world and with any EVM. */
  ghost predicate Safe(m: Message, ctx: Context)
    requires ctx.london ==> ctx.baseFee.Some? && m.gasFeeCap.Some?
  {
    forall w, pool: nat, evm :: NonNegative(w) && EvmSound(evm) ==> NonNegative(Transition(w, pool, m, ctx, evm).world)
  }

  /** An EVM that spends all gas and moves what one address has to the next. */
  function Emptied(w: World, a: Address): World {
    if Balance(w, a) > 0 then Transfer(w, a, a + 1, Balance(w, a)) else w
  }

  ghost function Emptying(a: Address): Evm {
    (w: World, m: Message, g: nat) => EvmOutcome(Emptied(w, a), 0, false, 0)
  }

  lemma EmptyingIsSound(a: Address)
    ensures EvmSound(Emptying(a))
  {
    forall w, m, g
      ensures SoundOutcome(w, g, Emptying(a)(w, m, g))
    {
      if Balance(w, a) > 0 {
        TransferConserves(w, a, a + 1, Balance(w, a));
      }
    }
  }

  /** The emptiest world in which a free message passes the checks. */
  function BareWorld(m: Message): World {
    World(map[m.from := m.value], map[m.from := m.nonce], {}, 0)
  }

  /** There a runnable message that leaves the base fee unpaid puts the producer in debt for all its gas. */
  lemma UnpaidIsUnsafe(m: Message, ctx: Context)
    requires Unpaid(m, ctx) && Runnable(m, ctx) && PricedBy(m, ctx.baseFee)
    ensures EvmSound(Emptying(ctx.coinbase)) && NonNegative(BareWorld(m))
    ensures var o := Transition(BareWorld(m), m.gas, m, ctx, Emptying(ctx.coinbase));
      o.result.Ok? && Balance(o.world, ctx.coinbase) == -(m.gas * ctx.baseFee.value) < 0
  {
    var w, evm := BareWorld(m), Emptying(ctx.coinbase);
    EmptyingIsSound(ctx.coinbase);
    BareWorldWillDo(m, ctx);
    SucceedsExactly(w, m.gas, m, ctx, evm);
    var intrinsic, out := Succeeded(w, m.gas, m, ctx, evm);
    GasIsAffordable(w, m);
    FreeCallCostsProducer(m, ctx, out);
    hide Transition, EvmSound, PricedBy, Intrinsic, EffectiveTip, SoundOutcome, Settled;
    assert out.world == Emptied(CallWorld(w, m), ctx.coinbase) && out.gasLeft == 0;
    assert out.world.refund == 0 && GasUsed(m, ctx, out) == m.gas;
    EmptiedIsEmpty(CallWorld(w, m), ctx.coinbase);
    PositiveProduct(m.gas, ctx.baseFee.value);
  }

  lemma BareWorldWillDo(m: Message, ctx: Context)
    requires Unpaid(m, ctx) && Runnable(m, ctx)
    ensures PreChecked(BareWorld(m), m, ctx).Ok? && Balance(BareWorld(m), m.from) >= FundsNeeded(m)
  {
    hide Intrinsic;
  }

  lemma EmptiedIsEmpty(w: World, a: Address)
    requires NonNegative(w)
    ensures Balance(Emptied(w, a), a) == 0
  {
    if Balance(w, a) > 0 {
      TransferConserves(w, a, a + 1, Balance(w, a));
    }
  }

  lemma PositiveProduct(a: nat, b: nat)
    requires a > 0 && b > 0
    ensures a * b > 0
  {
  }

  /** A message is safe exactly unless it can run and leaves a base fee unpaid: all of it known before the call. */
  lemma SafeExactly(m: Message, ctx: Context)
    requires ctx.london ==> ctx.baseFee.Some?
    requires PricedBy(m, ctx.baseFee) && m.nonce <= MAX_UINT64
    ensures Safe(m, ctx) <==> !(Unpaid(m, ctx) && Runnable(m, ctx))
  {
    if Unpaid(m, ctx) && Runnable(m, ctx) {
      UnpaidIsUnsafe(m, ctx);
      var o := Transition(BareWorld(m), m.gas, m, ctx, Emptying(ctx.coinbase));
      assert o.world.balances[ctx.coinbase] < 0;
    } else {
      forall w, pool: nat, evm | NonNegative(w) && EvmSound(evm)
        ensures NonNegative(Transition(w, pool, m, ctx, evm).world)
      {
        if Unpaid(m, ctx) {
          NotRunnableIsSafe(w, pool, m, ctx, evm);
        } else {
          NobodyGoesNegative(w, pool, m, ctx, evm);
        }
      }
    }
  }

  lemma NotRunnableIsSafe(w: World, pool: nat, m: Message, ctx: Context, evm: Evm)
    requires Unpaid(m, ctx) && !Runnable(m, ctx) && PricedBy(m, ctx.baseFee) && m.nonce <= MAX_UINT64
    requires EvmSound(evm) && NonNegative(w)
    ensures NonNegative(Transition(w, pool, m, ctx, evm).world)
  {
    if Transition(w, pool, m, ctx, evm).result.Ok? {
      SucceedsExactly(w, pool, m, ctx, evm);
      var intrinsic, out := FreeCallIsSafeExactly(w, pool, m, ctx, evm);
      GasIsAccountedFor(w, pool, m, ctx, evm);
      GasIsAffordable(w, m);
      assert SoundOutcome(CallWorld(w, m), m.gas - intrinsic, out);
    } else {
      FailureIsHarmless(w, pool, m, ctx, evm);
    }
  }

  const FREE_MESSAGE := Message(1, Some(2), 0, 21000, 0, Some(0), 0, 0, [], [], true)
  const FEE_BLOCK := Context(9, Some(7), true, true, true, true)
  const NOTHING := World(map[], map[], {}, 0)

  /** An EVM that does nothing is one of those the statements are about. */
  ghost function Idle(): Evm {
    (w: World, m: Message, g: nat) => EvmOutcome(w, g, false, 0)
  }

  lemma IdleEvmIsSound()
    ensures EvmSound(Idle()) && NoncesGrow(Idle())
  {
  }

  lemma FreeMessageCosts()
    ensures Intrinsic(FREE_MESSAGE, FEE_BLOCK) == Ok(21000)
    ensures PreChecked(NOTHING, FREE_MESSAGE, FEE_BLOCK).Ok?
    ensures Balance(NOTHING, 1) >= FundsNeeded(FREE_MESSAGE)
  {
    assert NonZeroBytes([]) == 0 && StorageKeys([]) == 0;
  }

  /** A free call that does nothing uses its intrinsic gas, at the producer's expense. */
  lemma IdleFreeCall(w: World, pool: nat, m: Message, ctx: Context)
    requires FreeCall(m, ctx) && ctx.baseFee.Some? && PricedBy(m, ctx.baseFee) && w.refund == 0
    requires PreChecked(w, m, ctx).Ok? && Balance(w, m.from) >= FundsNeeded(m) && m.gas <= pool
    requires Intrinsic(m, ctx).Ok? && Intrinsic(m, ctx).value <= m.gas
    ensures EvmSound(Idle())
    ensures var o, used := Transition(w, pool, m, ctx, Idle()), Intrinsic(m, ctx).value;
      o.result == Ok(Execution(used, false, 0))
      && Balance(o.world, ctx.coinbase) == Balance(w, ctx.coinbase) - used * ctx.baseFee.value
  {
    IdleEvmIsSound();
    hide IntrinsicSpec, Intrinsic, PreChecked, EvmSound, SoundOutcome;
    SucceedsExactly(w, pool, m, ctx, Idle());
    var intrinsic, out := Succeeded(w, pool, m, ctx, Idle());
    FreeCallCostsProducer(m, ctx, out);
    assert m.gasPrice == 0 && m.gas * 0 == 0;
    hide Transition, Settled, PricedBy;
    assert GasUsed(m, ctx, out) == intrinsic;
    assert Balance(out.world, ctx.coinbase) == Balance(w, ctx.coinbase);
  }

  /** The smallest case: a plain free call at a base fee of 7, on an empty world. */
  lemma ProducerInDebt()
    ensures EvmSound(Idle()) && PricedBy(FREE_MESSAGE, FEE_BLOCK.baseFee)
    ensures var o := Transition(NOTHING, 21000, FREE_MESSAGE, FEE_BLOCK, Idle());
      o.result == Ok(Execution(21000, false, 0)) && Balance(o.world, FEE_BLOCK.coinbase) == -147000
  {
    hide IntrinsicSpec, Intrinsic, PreChecked, EvmSound, Transition;
    FreeMessageCosts();
    IdleFreeCall(NOTHING, 21000, FREE_MESSAGE, FEE_BLOCK);
  }
}
