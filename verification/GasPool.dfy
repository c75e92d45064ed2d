/** The gas left in a block, a 64-bit counter shared by its transactions. */
module GasPool {
  import opened Wrappers
  import opened Numbers

  class GasPool {
    var gas: nat

    ghost predicate Valid()
      reads this
    {
      gas <= MAX_UINT64
    }

    constructor ()
      ensures Valid() && gas == 0
    {
      gas := 0;
    }

    /** Makes gas available; the error stands for the panic of a pool pushed above 64 bits. */
    method AddGas(amount: nat) returns (r: Result<()>)
      requires Valid() && amount <= MAX_UINT64
      modifies this
      ensures Valid()
      ensures r.Ok? <==> old(gas) + amount <= MAX_UINT64
      ensures gas == if r.Ok? then old(gas) + amount else old(gas)
    {
      if gas > MAX_UINT64 - amount {
        return Err("gas pool pushed above uint64");
      }
      gas := gas + amount;
      return Ok(());
    }

    /** Takes gas from the pool if there is enough, and leaves the pool alone if not. */
    method SubGas(amount: nat) returns (r: Result<()>)
      requires Valid()
      modifies this
      ensures Valid()
      ensures r == if old(gas) < amount then Err("gas limit reached") else Ok(())
      ensures gas == if r.Ok? then old(gas) - amount else old(gas)
    {
      if gas < amount {
        return Err("gas limit reached");
      }
      gas := gas - amount;
      return Ok(());
    }
  }
}
