/** The methods of one state transition, each proved to do what `TransitionProofs` reasons about. */
module StateTransition {
  import opened Wrappers
  import opened Numbers
  import opened GasPool
  import opened TransitionProofs

  /** Intrinsic gas in 64-bit arithmetic. */
  method IntrinsicGas(data: seq<byte>, accessList: seq<AccessTuple>, isContractCreation: bool,
                      isHomestead: bool, isEIP2028: bool) returns (r: Result<nat>)
    requires |data| <= MAX_UINT64
    ensures r == IntrinsicSpec(data, accessList, isContractCreation, isHomestead, isEIP2028)
  {
    hide NonZeroBytes, StorageKeys, Uint64;
    var gas := if isContractCreation && isHomestead then TX_GAS_CONTRACT_CREATION else TX_GAS;
    if |data| > 0 {
      var nz := CountNonZero(data);
      var nonZeroGas := if isEIP2028 then TX_DATA_NON_ZERO_GAS_EIP2028 else TX_DATA_NON_ZERO_GAS_FRONTIER;
      DivisionTest(gas, nonZeroGas, nz);
      if (MAX_UINT64 - gas) / nonZeroGas < nz {
        return Err("gas uint64 overflow");
      }
      gas := gas + nz * nonZeroGas;
      var z := |data| - nz;
      DivisionTest(gas, TX_DATA_ZERO_GAS, z);
      if (MAX_UINT64 - gas) / TX_DATA_ZERO_GAS < z {
        return Err("gas uint64 overflow");
      }
      gas := gas + z * TX_DATA_ZERO_GAS;
    }
    var keys := CountStorageKeys(accessList);
    SumWraps(gas, |accessList| * TX_ACCESS_LIST_ADDRESS_GAS, keys * TX_ACCESS_LIST_STORAGE_KEY_GAS);
    gas := Uint64(gas + Uint64(|accessList| * TX_ACCESS_LIST_ADDRESS_GAS));
    gas := Uint64(gas + Uint64(keys * TX_ACCESS_LIST_STORAGE_KEY_GAS));
    return Ok(gas);
  }

  /** Wrapping after every addition is wrapping once. */
  lemma SumWraps(a: nat, b: nat, c: nat)
    ensures Uint64(Uint64(a + Uint64(b)) + Uint64(c)) == Uint64(a + b + c)
  {
    WrapTwice(a, b);
    WrapTwice(Uint64(a + b), c);
    WrapTwice(c, a + b);
  }

  lemma WrapTwice(a: nat, b: nat)
    ensures Uint64(a + Uint64(b)) == Uint64(a + b)
  {
    assert b == 0x1_0000_0000_0000_0000 * (b / 0x1_0000_0000_0000_0000) + Uint64(b);
  }

  method CountNonZero(data: seq<byte>) returns (nz: nat)
    ensures nz == NonZeroBytes(data)
  {
    nz := 0;
    for i := 0 to |data|
      invariant nz == NonZeroBytes(data[..i])
    {
      assert data[..i + 1][..i] == data[..i];
      if data[i] != 0 {
        nz := nz + 1;
      }
    }
    assert data[..|data|] == data;
  }

  method CountStorageKeys(list: seq<AccessTuple>) returns (sum: nat)
    ensures sum == StorageKeys(list)
  {
    sum := 0;
    for i := 0 to |list|
      invariant sum == StorageKeys(list[..i])
    {
      assert list[..i + 1][..i] == list[..i];
      sum := sum + |list[i].storageKeys|;
    }
    assert list[..|list|] == list;
  }

  class StateTransition {
    const gp: GasPool
    const msg: Message
    const ctx: Context
    var gas: nat
    var initialGas: nat
    var state: World

    /** What the source's types and header validation guarantee. */
    ghost predicate Valid()
      reads this, gp
    {
      && gp.Valid() && msg.gas <= MAX_UINT64 && |msg.data| <= MAX_UINT64
      && (ctx.london ==> ctx.baseFee.Some? && msg.gasFeeCap.Some?)
    }

    constructor (gp: GasPool, msg: Message, ctx: Context, state: World)
      ensures this.gp == gp && this.msg == msg && this.ctx == ctx && this.state == state
      ensures gas == 0 && initialGas == 0
    {
      this.gp, this.msg, this.ctx, this.state := gp, msg, ctx, state;
      gas, initialGas := 0, 0;
    }

    method BuyGas() returns (r: Result<()>)
      requires Valid() && gas == 0
      modifies this, gp
      ensures Valid()
      ensures r ==
        if Balance(old(state), msg.from) < FundsNeeded(msg) then Err("insufficient funds for gas * price + value")
        else if old(gp.gas) < msg.gas then Err("gas limit reached")
        else Ok(())
      ensures r.Ok? ==> gas == initialGas == msg.gas && gp.gas == old(gp.gas) - msg.gas
      ensures r.Ok? ==> state == Bought(old(state), msg)
      ensures r.Err? ==> state == old(state) && gp.gas == old(gp.gas)
    {
      var mgval := msg.gas * msg.gasPrice;
      var balanceCheck := mgval;
      if msg.gasFeeCap.Some? {
        balanceCheck := msg.gas * msg.gasFeeCap.value;
        balanceCheck := balanceCheck + msg.value;
      }
      if Balance(state, msg.from) < balanceCheck {
        return Err("insufficient funds for gas * price + value");
      }
      var taken := gp.SubGas(msg.gas);
      if taken.Err? {
        return taken;
      }
      gas := gas + msg.gas;
      initialGas := msg.gas;
      state := AddBalance(state, msg.from, -(mgval as int));
      return Ok(());
    }

    method PreCheck() returns (r: Result<()>)
      requires Valid() && gas == 0
      modifies this, gp
      ensures Valid()
      ensures r ==
        if PreChecked(old(state), msg, ctx).Err? then PreChecked(old(state), msg, ctx)
        else if Balance(old(state), msg.from) < FundsNeeded(msg) then Err("insufficient funds for gas * price + value")
        else if old(gp.gas) < msg.gas then Err("gas limit reached")
        else Ok(())
      ensures r.Ok? ==> gas == initialGas == msg.gas && gp.gas == old(gp.gas) - msg.gas
      ensures r.Ok? ==> state == Bought(old(state), msg)
      ensures r.Err? ==> state == old(state) && gp.gas == old(gp.gas)
    {
      if !msg.isFake {
        var stNonce := Nonce(state, msg.from);
        if stNonce < msg.nonce {
          return Err("nonce too high");
        } else if stNonce > msg.nonce {
          return Err("nonce too low");
        } else if stNonce == MAX_UINT64 {
          return Err("nonce has max value");
        }
        if msg.from in state.contracts {
          return Err("sender not an eoa");
        }
      }
      if ctx.london {
        var feeCap := msg.gasFeeCap.value;
        if !ctx.noBaseFee || feeCap > 0 || msg.gasTipCap > 0 {
          if feeCap >= TWO_TO_256 {
            return Err("max fee per gas higher than 2^256-1");
          }
          if msg.gasTipCap >= TWO_TO_256 {
            return Err("max priority fee per gas higher than 2^256-1");
          }
          if feeCap < msg.gasTipCap {
            return Err("max priority fee per gas higher than max fee per gas");
          }
          if feeCap < ctx.baseFee.value {
            return Err("max fee per gas less than block base fee");
          }
        }
      }
      r := BuyGas();
    }

    /** Gas used so far. */
    function Used(): (used: nat)
      requires gas <= initialGas
      reads this
    {
      initialGas - gas
    }

    /** Pays back what is left, with the refund, to the sender and to the block. */
    method RefundGas(refundQuotient: nat) returns (r: Result<()>)
      requires Valid() && gas <= initialGas <= MAX_UINT64
      requires refundQuotient == if ctx.london then REFUND_QUOTIENT_EIP3529 else REFUND_QUOTIENT
      modifies this, gp
      ensures Valid() && initialGas == old(initialGas)
      ensures gas == old(gas) + Min(RefundCap(initialGas - old(gas), ctx.london), old(state.refund))
      ensures gas <= initialGas
      ensures state == AddBalance(old(state), msg.from, gas * msg.gasPrice)
      ensures r.Ok? <==> old(gp.gas) + gas <= MAX_UINT64
      ensures gp.gas == if r.Ok? then old(gp.gas) + gas else old(gp.gas)
    {
      var refund := Used() / refundQuotient;
      assert refund == RefundCap(Used(), ctx.london);
      hide RefundCap;
      if refund > state.refund {
        refund := state.refund;
      }
      gas := gas + refund;
      hide AddBalance;
      var remaining := gas * msg.gasPrice;
      state := AddBalance(state, msg.from, remaining);
      r := gp.AddGas(gas);
    }

    /** Runs the message on gas that has been bought, and settles. */
    method Execute(evm: Evm, ghost pool: nat) returns (r: Execution)
      requires Valid() && gas <= initialGas == msg.gas && EvmSound(evm)
      requires gp.gas == pool - msg.gas && pool <= MAX_UINT64
      modifies this, gp
      ensures gp.Valid()
      ensures var w := if msg.to.None? then old(state)
                       else old(state).(nonces := old(state.nonces)[msg.from := Uint64(Nonce(old(state), msg.from) + 1)]);
        var out := evm(w, msg, old(gas));
        && SoundOutcome(w, old(gas), out)
        && r == Execution(GasUsed(msg, ctx, out), out.failed, out.burned)
        && state == Settled(msg, ctx, out) && gp.gas == pool - GasUsed(msg, ctx, out)
    {
      hide Uint64;
      if msg.to != None {
        state := state.(nonces := state.nonces[msg.from := Uint64(Nonce(state, msg.from) + 1)]);
      }
      assert SoundOutcome(state, gas, evm(state, msg, gas));
      var out := evm(state, msg, gas);
      state := out.world;
      gas := out.gasLeft;
      hide SoundOutcome, EvmSound;
      var refunded := RefundGas(if !ctx.london then REFUND_QUOTIENT else REFUND_QUOTIENT_EIP3529);
      assert refunded.Ok?;
      var effectiveTip: int := msg.gasPrice;
      if ctx.london {
        effectiveTip := Min(msg.gasTipCap, msg.gasFeeCap.value - ctx.baseFee.value);
      }
      state := AddBalance(state, ctx.coinbase, Used() * effectiveTip);
      return Execution(Used(), out.failed, out.burned);
    }

    /**
     A whole transaction.  The pool's panic cannot happen, and state, pool and result are
     those of `Transition`.
     */
    method TransitionDb(evm: Evm) returns (r: Result<Execution>)
      requires Valid() && gas == 0 && EvmSound(evm)
      modifies this, gp
      ensures gp.Valid()
      ensures Outcome(r, state, gp.gas) == Transition(old(state), old(gp.gas), msg, ctx, evm)
    {
      hide PreChecked, IntrinsicSpec, FundsNeeded, Settled, GasUsed, SoundOutcome, Uint64;
      var checked := PreCheck();
      if checked.Err? {
        return Err(checked.message);
      }
      var intrinsic := IntrinsicGas(msg.data, msg.accessList, msg.to == None, ctx.homestead, ctx.istanbul);
      if intrinsic.Err? {
        return Err(intrinsic.message);
      }
      if gas < intrinsic.value {
        return Err("intrinsic gas too low");
      }
      gas := gas - intrinsic.value;
      if msg.value > 0 && !CanTransfer(state, msg.from, msg.value) {
        return Err("insufficient funds for transfer");
      }
      var done := Execute(evm, old(gp.gas));
      return Ok(done);
    }
  }
}
