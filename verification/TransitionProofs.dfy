/**
 Gas and ether of one transaction: what is checked, bought, used, refunded and paid out.
 Gas is 64 bits wide, balances are unbounded, and the EVM is any function that returns no
 more gas than it was given and creates no ether.
 */
module TransitionProofs {
  import opened Wrappers
  import opened Numbers

  type Address = nat
  newtype byte = x: int | 0 <= x < 256

  const TX_GAS: nat := 21000
  const TX_GAS_CONTRACT_CREATION: nat := 53000
  const TX_DATA_ZERO_GAS: nat := 4
  const TX_DATA_NON_ZERO_GAS_FRONTIER: nat := 68
  const TX_DATA_NON_ZERO_GAS_EIP2028: nat := 16
  const TX_ACCESS_LIST_ADDRESS_GAS: nat := 2400
  const TX_ACCESS_LIST_STORAGE_KEY_GAS: nat := 1900
  const REFUND_QUOTIENT: nat := 2
  const REFUND_QUOTIENT_EIP3529: nat := 5

  datatype AccessTuple = AccessTuple(address: Address, storageKeys: seq<nat>)

  /** A message; without a fee cap (`None`) it can only be run under the old fee rules. */
  datatype Message = Message(
    from: Address, to: Option<Address>, nonce: nat, gas: nat,
    gasPrice: nat, gasFeeCap: Option<nat>, gasTipCap: nat,
    value: nat, data: seq<byte>, accessList: seq<AccessTuple>, isFake: bool
  )

  datatype Context = Context(coinbase: Address, baseFee: Option<nat>, homestead: bool, istanbul: bool, london: bool,
                             noBaseFee: bool)

  datatype World = World(balances: map<Address, int>, nonces: map<Address, nat>, contracts: set<Address>, refund: nat)

  /** What a call or creation comes back with; `burned` is ether destroyed by self-destructs. */
  datatype EvmOutcome = EvmOutcome(world: World, gasLeft: nat, failed: bool, burned: nat)

  type Evm = (World, Message, nat) -> EvmOutcome

  datatype Execution = Execution(usedGas: nat, failed: bool, burned: nat)
  datatype Outcome = Outcome(result: Result<Execution>, world: World, pool: nat)

  function Balance(w: World, a: Address): int {
    if a in w.balances then w.balances[a] else 0
  }

  function AddBalance(w: World, a: Address, amount: int): World {
    w.(balances := w.balances[a := Balance(w, a) + amount])
  }

  function Nonce(w: World, a: Address): nat {
    if a in w.nonces then w.nonces[a] else 0
  }

  predicate CanTransfer(w: World, a: Address, amount: nat) {
    Balance(w, a) >= amount
  }

  /** The value transfer of a call. */
  function Transfer(w: World, sender: Address, recipient: Address, amount: nat): World {
    AddBalance(AddBalance(w, sender, -(amount as int)), recipient, amount)
  }

  /** All ether there is. */
  ghost function Total(b: map<Address, int>): int {
    if b == map[] then 0 else
      var a :| a in b;
      b[a] + Total(b - {a})
  }

  lemma {:induction false} TotalWithout(b: map<Address, int>, a: Address)
    requires a in b
    ensures Total(b) == b[a] + Total(b - {a})
    decreases |b|
  {
    var c :| c in b && Total(b) == b[c] + Total(b - {c});
    if c != a {
      TotalWithout(b - {c}, a);
      TotalWithout(b - {a}, c);
      assert b - {c} - {a} == b - {a} - {c};
    }
  }

  /** Adding to one balance adds to the total. */
  lemma TotalAdded(w: World, a: Address, amount: int)
    ensures Total(AddBalance(w, a, amount).balances) == Total(w.balances) + amount
  {
    var after := AddBalance(w, a, amount).balances;
    TotalWithout(after, a);
    if a in w.balances {
      TotalWithout(w.balances, a);
      assert after - {a} == w.balances - {a};
    } else {
      assert after - {a} == w.balances;
    }
  }

  /** A transfer moves ether, even to the sender itself. */
  lemma TransferConserves(w: World, sender: Address, recipient: Address, amount: nat)
    ensures Total(Transfer(w, sender, recipient, amount).balances) == Total(w.balances)
    ensures sender == recipient ==> Balance(Transfer(w, sender, recipient, amount), sender) == Balance(w, sender)
    ensures sender != recipient ==>
      Balance(Transfer(w, sender, recipient, amount), sender) == Balance(w, sender) - amount
  {
    TotalAdded(w, sender, -(amount as int));
    TotalAdded(AddBalance(w, sender, -(amount as int)), recipient, amount);
  }

  ghost predicate NonNegative(w: World) {
    forall a :: a in w.balances ==> w.balances[a] >= 0
  }

  /** What is assumed of the EVM. */
  ghost predicate EvmSound(evm: Evm) {
    forall w, m, g :: SoundOutcome(w, g, evm(w, m, g))
  }

  ghost predicate SoundOutcome(w: World, g: nat, out: EvmOutcome) {
    && out.gasLeft <= g
    && (NonNegative(w) ==> NonNegative(out.world))
    && Total(out.world.balances) == Total(w.balances) - out.burned
  }

  function NonZeroBytes(data: seq<byte>): (n: nat)
    ensures n <= |data|
  {
    if data == [] then 0
    else NonZeroBytes(data[..|data| - 1]) + if data[|data| - 1] != 0 then 1 else 0
  }

  function StorageKeys(list: seq<AccessTuple>): nat {
    if list == [] then 0 else StorageKeys(list[..|list| - 1]) + |list[|list| - 1].storageKeys|
  }

  function BaseGas(creation: bool, homestead: bool): nat {
    if creation && homestead then TX_GAS_CONTRACT_CREATION else TX_GAS
  }

  /** The price of the transaction data, in unbounded arithmetic. */
  function DataGas(data: seq<byte>, eip2028: bool): nat {
    var nz := NonZeroBytes(data);
    (if eip2028 then nz * TX_DATA_NON_ZERO_GAS_EIP2028 else nz * TX_DATA_NON_ZERO_GAS_FRONTIER)
    + (|data| - nz) * TX_DATA_ZERO_GAS
  }

  function AccessGas(list: seq<AccessTuple>): nat {
    |list| * TX_ACCESS_LIST_ADDRESS_GAS + StorageKeys(list) * TX_ACCESS_LIST_STORAGE_KEY_GAS
  }

  /** What 64 bits keep of a number. */
  function Uint64(n: nat): nat {
    if n <= MAX_UINT64 then n else n % (MAX_UINT64 + 1)
  }

  /** Sixty-four bits: smaller numbers are kept, and 2^64 makes no difference. */
  lemma Wraps(n: nat)
    ensures Uint64(n) < 0x1_0000_0000_0000_0000
    ensures n < 0x1_0000_0000_0000_0000 ==> Uint64(n) == n
    ensures Uint64(n + 0x1_0000_0000_0000_0000) == Uint64(n)
  {
  }

  /** Intrinsic gas: the data is checked for overflow, the access list is not and wraps. */
  function IntrinsicSpec(data: seq<byte>, list: seq<AccessTuple>, creation: bool, homestead: bool, eip2028: bool)
    : Result<nat>
  {
    var gas := BaseGas(creation, homestead) + DataGas(data, eip2028);
    if gas > MAX_UINT64 then Err("gas uint64 overflow") else Ok(Uint64(gas + AccessGas(list)))
  }

  /** The overflow test by division is exact. */
  lemma DivisionTest(gas: nat, price: nat, count: nat)
    requires gas <= MAX_UINT64 && price > 0
    ensures (MAX_UINT64 - gas) / price < count <==> gas + count * price > MAX_UINT64
  {
    var room := MAX_UINT64 - gas;
    assert room == (room / price) * price + room % price;
    if room / price < count {
      assert count * price >= (room / price + 1) * price;
    } else {
      assert count * price <= (room / price) * price;
    }
  }

  /** A message too small to fill 2^48 bytes of memory costs what the rules say. */
  lemma IntrinsicDoesNotWrap(data: seq<byte>, list: seq<AccessTuple>, creation: bool, homestead: bool, eip2028: bool)
    requires |data| + |list| + StorageKeys(list) < 0x1_0000_0000_0000
    ensures IntrinsicSpec(data, list, creation, homestead, eip2028)
         == Ok(BaseGas(creation, homestead) + DataGas(data, eip2028) + AccessGas(list))
    ensures IntrinsicSpec(data, list, creation, homestead, eip2028).value >= TX_GAS
  {
    DataGasBound(data, eip2028);
    hide DataGas, StorageKeys;
  }

  lemma DataGasBound(data: seq<byte>, eip2028: bool)
    ensures DataGas(data, eip2028) <= 68 * |data|
  {
    hide NonZeroBytes;
  }

  /** The checks before gas is bought, in the order in which they are made. */
  function PreChecked(w: World, m: Message, ctx: Context): Result<()>
    requires ctx.london ==> ctx.baseFee.Some? && m.gasFeeCap.Some?
  {
    if !m.isFake && Nonce(w, m.from) < m.nonce then Err("nonce too high")
    else if !m.isFake && Nonce(w, m.from) > m.nonce then Err("nonce too low")
    else if !m.isFake && Nonce(w, m.from) == MAX_UINT64 then Err("nonce has max value")
    else if !m.isFake && m.from in w.contracts then Err("sender not an eoa")
    else if ctx.london && (!ctx.noBaseFee || m.gasFeeCap.value > 0 || m.gasTipCap > 0) then
      if m.gasFeeCap.value >= TWO_TO_256 then Err("max fee per gas higher than 2^256-1")
      else if m.gasTipCap >= TWO_TO_256 then Err("max priority fee per gas higher than 2^256-1")
      else if m.gasFeeCap.value < m.gasTipCap then Err("max priority fee per gas higher than max fee per gas")
      else if m.gasFeeCap.value < ctx.baseFee.value then Err("max fee per gas less than block base fee")
      else Ok(())
    else Ok(())
  }

  const TWO_TO_256: nat := 0x1_0000000000000000_0000000000000000_0000000000000000_0000000000000000

  /** The balance a sender must show, which is more than what is charged at once. */
  function FundsNeeded(m: Message): nat {
    if m.gasFeeCap.Some? then m.gas * m.gasFeeCap.value + m.value else m.gas * m.gasPrice
  }

  function Bought(w: World, m: Message): World {
    AddBalance(w, m.from, -((m.gas * m.gasPrice) as int))
  }

  /** The cap on the refund: a fifth of the gas used after London (EIP-3529), half of it before. */
  function RefundCap(used: nat, london: bool): (cap: nat)
    ensures cap <= used
  {
    if london then used / REFUND_QUOTIENT_EIP3529 else used / REFUND_QUOTIENT
  }

  function Refund(m: Message, ctx: Context, out: EvmOutcome): nat
    requires out.gasLeft <= m.gas
  {
    Min(RefundCap(m.gas - out.gasLeft, ctx.london), out.world.refund)
  }

  function GasUsed(m: Message, ctx: Context, out: EvmOutcome): (used: nat)
    requires out.gasLeft <= m.gas
    ensures used <= m.gas - out.gasLeft
  {
    m.gas - out.gasLeft - Refund(m, ctx, out)
  }

  /** What the block producer gets for each unit of gas. */
  function EffectiveTip(m: Message, ctx: Context): int
    requires ctx.london ==> ctx.baseFee.Some? && m.gasFeeCap.Some?
  {
    if ctx.london then Min(m.gasTipCap, m.gasFeeCap.value - ctx.baseFee.value) else m.gasPrice
  }

  /** The end of a transaction: unused gas is paid back, used gas is paid to the producer. */
  function Settled(m: Message, ctx: Context, out: EvmOutcome): World
    requires ctx.london ==> ctx.baseFee.Some? && m.gasFeeCap.Some?
    requires out.gasLeft <= m.gas
  {
    var used := GasUsed(m, ctx, out);
    AddBalance(AddBalance(out.world, m.from, (m.gas - used) * m.gasPrice), ctx.coinbase, used * EffectiveTip(m, ctx))
  }

  /** The world a call starts from: the sender's nonce is raised here, for a creation in the EVM. */
  function CallWorld(w: World, m: Message): World {
    if m.to.None? then Bought(w, m)
    else Bought(w, m).(nonces := w.nonces[m.from := Uint64(Nonce(w, m.from) + 1)])
  }

  /** A whole transaction.  After gas has been bought an error leaves it bought. */
  ghost function Transition(w: World, pool: nat, m: Message, ctx: Context, evm: Evm): Outcome
    requires ctx.london ==> ctx.baseFee.Some? && m.gasFeeCap.Some?
    requires EvmSound(evm)
  {
    var checked := PreChecked(w, m, ctx);
    var intrinsic := Intrinsic(m, ctx);
    if checked.Err? then Outcome(Err(checked.message), w, pool)
    else if Balance(w, m.from) < FundsNeeded(m) then Outcome(Err("insufficient funds for gas * price + value"), w, pool)
    else if pool < m.gas then Outcome(Err("gas limit reached"), w, pool)
    else if intrinsic.Err? then Outcome(Err(intrinsic.message), Bought(w, m), pool - m.gas)
    else if m.gas < intrinsic.value then Outcome(Err("intrinsic gas too low"), Bought(w, m), pool - m.gas)
    else if m.value > 0 && !CanTransfer(Bought(w, m), m.from, m.value) then
      Outcome(Err("insufficient funds for transfer"), Bought(w, m), pool - m.gas)
    else
      var out := evm(CallWorld(w, m), m, m.gas - intrinsic.value);
      assert SoundOutcome(CallWorld(w, m), m.gas - intrinsic.value, out);
      var used := GasUsed(m, ctx, out);
      Outcome(Ok(Execution(used, out.failed, out.burned)), Settled(m, ctx, out), pool - used)
  }

  function Intrinsic(m: Message, ctx: Context): Result<nat> {
    IntrinsicSpec(m.data, m.accessList, m.to.None?, ctx.homestead, ctx.istanbul)
  }

  /** What the EVM is asked to run, and what a success tells about it. */
  lemma Succeeded(w: World, pool: nat, m: Message, ctx: Context, evm: Evm) returns (intrinsic: nat, out: EvmOutcome)
    requires ctx.london ==> ctx.baseFee.Some? && m.gasFeeCap.Some?
    requires EvmSound(evm) && Transition(w, pool, m, ctx, evm).result.Ok?
    ensures PreChecked(w, m, ctx).Ok? && Balance(w, m.from) >= FundsNeeded(m) && m.gas <= pool
    ensures Intrinsic(m, ctx) == Ok(intrinsic) && intrinsic <= m.gas
    ensures out == evm(CallWorld(w, m), m, m.gas - intrinsic)
    ensures SoundOutcome(CallWorld(w, m), m.gas - intrinsic, out)
    ensures Transition(w, pool, m, ctx, evm) ==
      Outcome(Ok(Execution(GasUsed(m, ctx, out), out.failed, out.burned)), Settled(m, ctx, out),
              pool - GasUsed(m, ctx, out))
  {
    hide IntrinsicSpec, PreChecked, SoundOutcome;
    intrinsic := Intrinsic(m, ctx).value;
    out := evm(CallWorld(w, m), m, m.gas - intrinsic);
    assert SoundOutcome(CallWorld(w, m), m.gas - intrinsic, out);
  }

  /** The price a message made from a transaction pays: EIP-1559 section "Specification". */
  predicate PricedBy(m: Message, baseFee: Option<nat>) {
    && m.gasFeeCap.Some?
    && (baseFee.Some? ==> m.gasPrice == Min(m.gasTipCap + baseFee.value, m.gasFeeCap.value))
    && (baseFee.None? ==> m.gasPrice == m.gasFeeCap.value)
  }

  /** What is charged splits into base fee and tip. */
  lemma PriceSplits(m: Message, ctx: Context)
    requires ctx.london && ctx.baseFee.Some? && PricedBy(m, ctx.baseFee)
    ensures m.gasPrice == ctx.baseFee.value + EffectiveTip(m, ctx)
    ensures EffectiveTip(m, ctx) >= 0 <==> m.gasFeeCap.value >= ctx.baseFee.value
  {
  }

  lemma SettledTotal(m: Message, ctx: Context, out: EvmOutcome)
    requires ctx.london ==> ctx.baseFee.Some? && m.gasFeeCap.Some?
    requires out.gasLeft <= m.gas
    ensures Total(Settled(m, ctx, out).balances) == Total(out.world.balances)
      + (m.gas - GasUsed(m, ctx, out)) * m.gasPrice + GasUsed(m, ctx, out) * EffectiveTip(m, ctx)
  {
    var used := GasUsed(m, ctx, out);
    TotalAdded(out.world, m.from, (m.gas - used) * m.gasPrice);
    TotalAdded(AddBalance(out.world, m.from, (m.gas - used) * m.gasPrice), ctx.coinbase, used * EffectiveTip(m, ctx));
  }

  /** Who is paid what at the end: the sender for the gas left, the producer for the gas used, nobody else anything. */
  lemma SettledBalances(m: Message, ctx: Context, out: EvmOutcome, a: Address)
    requires ctx.london ==> ctx.baseFee.Some? && m.gasFeeCap.Some?
    requires out.gasLeft <= m.gas
    ensures Balance(Settled(m, ctx, out), a) == Balance(out.world, a)
      + (if a == m.from then (m.gas - GasUsed(m, ctx, out)) * m.gasPrice else 0)
      + (if a == ctx.coinbase then GasUsed(m, ctx, out) * EffectiveTip(m, ctx) else 0)
  {
    hide GasUsed, EffectiveTip;
  }

  /** A successful transaction destroys exactly the base fee of the gas it used (and what the EVM burns). */
  lemma EtherIsConserved(w: World, pool: nat, m: Message, ctx: Context, evm: Evm)
    requires ctx.london ==> ctx.baseFee.Some? && PricedBy(m, ctx.baseFee)
    requires EvmSound(evm) && Transition(w, pool, m, ctx, evm).result.Ok?
    ensures var o := Transition(w, pool, m, ctx, evm);
      Total(o.world.balances) == Total(w.balances) - o.result.value.burned
        - (if ctx.london then o.result.value.usedGas * ctx.baseFee.value else 0)
  {
    var intrinsic, out := Succeeded(w, pool, m, ctx, evm);
    hide Transition, EvmSound, Settled, PricedBy, Intrinsic;
    TotalAdded(w, m.from, -((m.gas * m.gasPrice) as int));
    SettledTotal(m, ctx, out);
    FeesAddUp(m, ctx, GasUsed(m, ctx, out));
  }

  lemma FeesAddUp(m: Message, ctx: Context, used: nat)
    requires ctx.london ==> ctx.baseFee.Some? && PricedBy(m, ctx.baseFee)
    requires used <= m.gas
    ensures (m.gas - used) * m.gasPrice + used * EffectiveTip(m, ctx) - m.gas * m.gasPrice
         == -(if ctx.london then used * ctx.baseFee.value else 0)
  {
    assert (m.gas - used) * m.gasPrice == m.gas * m.gasPrice - used * m.gasPrice;
    if ctx.london {
      PriceSplits(m, ctx);
      assert used * m.gasPrice == used * ctx.baseFee.value + used * EffectiveTip(m, ctx);
    }
  }

  /** Having shown the balance for the fee cap, the sender has at least the value left after paying for gas. */
  lemma ValueIsLeft(w: World, m: Message)
    requires m.gasFeeCap.Some? && m.gasPrice <= m.gasFeeCap.value
    requires Balance(w, m.from) >= FundsNeeded(m)
    ensures Balance(Bought(w, m), m.from) >= m.value
  {
    assert m.gas * m.gasPrice <= m.gas * m.gasFeeCap.value;
  }

  /** With a fee cap the check of the transfer can no longer fail once gas has been bought. */
  lemma TransferCheckIsRedundant(w: World, pool: nat, m: Message, ctx: Context, evm: Evm)
    requires ctx.london ==> ctx.baseFee.Some?
    requires EvmSound(evm) && m.gasFeeCap.Some? && m.gasPrice <= m.gasFeeCap.value
    ensures Transition(w, pool, m, ctx, evm).result != Err("insufficient funds for transfer")
  {
    if Balance(w, m.from) >= FundsNeeded(m) {
      ValueIsLeft(w, m);
    }
    MessagesDiffer(w, m, ctx);
  }

  /** So a message with a fee cap succeeds exactly if it passes the checks, and funds, pool and gas suffice. */
  lemma SucceedsExactly(w: World, pool: nat, m: Message, ctx: Context, evm: Evm)
    requires ctx.london ==> ctx.baseFee.Some?
    requires EvmSound(evm) && m.gasFeeCap.Some? && m.gasPrice <= m.gasFeeCap.value
    ensures Transition(w, pool, m, ctx, evm).result.Ok? <==>
      && PreChecked(w, m, ctx).Ok? && Balance(w, m.from) >= FundsNeeded(m) && m.gas <= pool
      && Intrinsic(m, ctx).Ok? && Intrinsic(m, ctx).value <= m.gas
  {
    if Balance(w, m.from) >= FundsNeeded(m) {
      ValueIsLeft(w, m);
    }
    hide EvmSound, PreChecked, IntrinsicSpec, FundsNeeded, Bought, Settled;
  }

  lemma MessagesDiffer(w: World, m: Message, ctx: Context)
    requires ctx.london ==> ctx.baseFee.Some? && m.gasFeeCap.Some?
    ensures PreChecked(w, m, ctx) != Err("insufficient funds for transfer")
  {
    assert "insufficient funds for transfer"[0] == 'i';
    assert "nonce too high"[0] == 'n' && "nonce too low"[0] == 'n' && "nonce has max value"[0] == 'n';
    assert "sender not an eoa"[0] == 's';
  }

  /** Without a fee cap it can: the value was not part of the balance asked for. */
  lemma TransferCheckWithoutCap(w: World, m: Message)
    requires m.gasFeeCap.None? && Balance(w, m.from) >= FundsNeeded(m)
    ensures CanTransfer(Bought(w, m), m.from, m.value) <==> Balance(w, m.from) >= m.gas * m.gasPrice + m.value
  {
  }

  /** What is assumed of the EVM about nonces: they only grow. */
  ghost predicate NoncesGrow(evm: Evm) {
    forall w, m, g, a :: Nonce(evm(w, m, g).world, a) >= Nonce(w, a)
  }

  lemma StaleNonceFails(w: World, pool: nat, m: Message, ctx: Context, evm: Evm)
    requires ctx.london ==> ctx.baseFee.Some? && m.gasFeeCap.Some?
    requires EvmSound(evm) && !m.isFake && Nonce(w, m.from) > m.nonce
    ensures Transition(w, pool, m, ctx, evm) == Outcome(Err("nonce too low"), w, pool)
  {
    hide EvmSound, IntrinsicSpec, Settled;
  }

  lemma PassedNonce(w: World, m: Message, ctx: Context)
    requires ctx.london ==> ctx.baseFee.Some? && m.gasFeeCap.Some?
    requires PreChecked(w, m, ctx).Ok? && !m.isFake && m.to.Some? && m.nonce <= MAX_UINT64
    ensures Nonce(CallWorld(w, m), m.from) == m.nonce + 1
  {
  }

  /** A message that has run as a call cannot run again: its nonce is used up. */
  lemma CallsDoNotReplay(w: World, pool: nat, m: Message, ctx: Context, evm: Evm, laterPool: nat, later: Context)
    requires ctx.london ==> ctx.baseFee.Some? && m.gasFeeCap.Some?
    requires later.london ==> later.baseFee.Some? && m.gasFeeCap.Some?
    requires EvmSound(evm) && NoncesGrow(evm) && !m.isFake && m.to.Some? && m.nonce <= MAX_UINT64
    requires Transition(w, pool, m, ctx, evm).result.Ok?
    ensures var after := Transition(w, pool, m, ctx, evm).world;
      && Nonce(after, m.from) > m.nonce
      && Transition(after, laterPool, m, later, evm) == Outcome(Err("nonce too low"), after, laterPool)
  {
    hide Transition, EvmSound, SoundOutcome, IntrinsicSpec, GasUsed, PreChecked, CallWorld, FundsNeeded, EffectiveTip;
    var intrinsic, out := Succeeded(w, pool, m, ctx, evm);
    PassedNonce(w, m, ctx);
    assert Nonce(evm(CallWorld(w, m), m, m.gas - intrinsic).world, m.from) >= m.nonce + 1;
    assert Nonce(Settled(m, ctx, out), m.from) == Nonce(out.world, m.from);
    StaleNonceFails(Settled(m, ctx, out), laterPool, m, later, evm);
  }

  /**
   How gas spent becomes gas used: the whole refund counter is taken off as long as it is at
   most a fifth of what was spent (half of it before London), and otherwise just that share.
   */
  predicate UsedOf(spent: nat, refund: nat, london: bool, used: nat) {
    && used <= spent
    && spent - used == if london then (if 5 * refund <= spent then refund else spent / 5)
                       else (if 2 * refund <= spent then refund else spent / 2)
  }

  lemma RefundExactly(w: World, pool: nat, m: Message, ctx: Context, evm: Evm)
    returns (intrinsic: nat, out: EvmOutcome)
    requires ctx.london ==> ctx.baseFee.Some? && m.gasFeeCap.Some?
    requires EvmSound(evm) && Transition(w, pool, m, ctx, evm).result.Ok?
    ensures Intrinsic(m, ctx) == Ok(intrinsic) && intrinsic <= m.gas
    ensures out == evm(CallWorld(w, m), m, m.gas - intrinsic) && out.gasLeft <= m.gas - intrinsic
    ensures UsedOf(m.gas - out.gasLeft, out.world.refund, ctx.london,
                   Transition(w, pool, m, ctx, evm).result.value.usedGas)
  {
    intrinsic, out := Succeeded(w, pool, m, ctx, evm);
    RefundShare(m, ctx, out);
    hide UsedOf, GasUsed, Transition, EvmSound, Settled, Intrinsic, IntrinsicSpec;
  }

  lemma RefundShare(m: Message, ctx: Context, out: EvmOutcome)
    requires out.gasLeft <= m.gas
    ensures UsedOf(m.gas - out.gasLeft, out.world.refund, ctx.london, GasUsed(m, ctx, out))
  {
  }

  /** What a transaction leaves in the block, and how far the refund goes: EIP-3529 section "Specification". */
  lemma GasIsAccountedFor(w: World, pool: nat, m: Message, ctx: Context, evm: Evm)
    requires ctx.london ==> ctx.baseFee.Some? && m.gasFeeCap.Some?
    requires EvmSound(evm) && Transition(w, pool, m, ctx, evm).result.Ok?
    ensures var o := Transition(w, pool, m, ctx, evm);
      var used := o.result.value.usedGas;
      && o.pool + used == pool && used <= m.gas <= pool
      && Intrinsic(m, ctx).Ok? && Intrinsic(m, ctx).value <= m.gas
      && (if ctx.london then 5 * used >= 4 * Intrinsic(m, ctx).value else 2 * used >= Intrinsic(m, ctx).value)
  {
    var intrinsic, out := Succeeded(w, pool, m, ctx, evm);
    hide Transition, EvmSound, Settled, Intrinsic, IntrinsicSpec, SoundOutcome;
  }
}
