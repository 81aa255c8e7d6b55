/** The gas meter of an Ethereum transaction and the counter of gas its messages used. */
module GasMeters {
  import opened EvmTypes

  /** `infiniteGasMeterWithLimit`: counts without ever running out; overflow and negative refunds are panics. */
  class GasMeter {
    var consumed: uint64
    const limit: uint64

    constructor (limit: uint64)
      ensures consumed == 0 && this.limit == limit
    {
      consumed := 0;
      this.limit := limit;
    }

    /** Adds to the count; on overflow the count is zero and the caller panics. */
    method ConsumeGas(amount: uint64) returns (ok: bool)
      modifies this
      ensures ok == (old(consumed) + amount < U64)
      ensures consumed == if ok then old(consumed) + amount else 0
    {
      if U64 - 1 - consumed < amount {
        consumed := 0;
        return false;
      }
      consumed := consumed + amount;
      ok := true;
    }

    /** Takes from the count, unless that would make it negative. */
    method RefundGas(amount: uint64) returns (ok: bool)
      modifies this
      ensures ok == (amount <= old(consumed))
      ensures consumed == if ok then old(consumed) - amount else old(consumed)
    {
      if consumed < amount {
        return false;
      }
      consumed := consumed - amount;
      ok := true;
    }
  }

  /** The wrapped sum is smaller than a summand exactly when the sum does not fit. */
  lemma OverflowTest(a: uint64, b: uint64)
    ensures (a + b) % U64 < b <==> a + b >= U64
    ensures a + b < U64 ==> (a + b) % U64 == a + b
  {
  }

  function Sum(gas: seq<uint64>): nat {
    if gas == [] then 0 else Sum(gas[..|gas| - 1]) + gas[|gas| - 1]
  }

  lemma {:induction false} SumGrows(gas: seq<uint64>, k: nat)
    requires k <= |gas|
    ensures Sum(gas[..k]) <= Sum(gas)
  {
    if k == |gas| {
      assert gas[..k] == gas;
    } else {
      SumGrows(gas[..|gas| - 1], k);
      assert gas[..|gas| - 1][..k] == gas[..k];
    }
  }

  /** What the meter shows before the k-th message. */
  function Shown(first: uint64, gasUsed: seq<uint64>, k: nat): nat
    requires k <= |gasUsed|
  {
    if k == 0 then first else Sum(gasUsed[..k])
  }

  ghost predicate ChargesFit(first: uint64, gasUsed: seq<uint64>, storeGas: seq<uint64>)
    requires |storeGas| == |gasUsed|
  {
    forall k :: 0 <= k < |gasUsed| ==> Shown(first, gasUsed, k) + storeGas[k] < U64
  }

  /** The gas counters of one transaction: the meter in the context, and the transient counter of the EVM module. */
  class TxGas {
    const meter: GasMeter
    var transientGasUsed: uint64

    /** The ante handler resets the transient counter and installs a meter that starts with the gas consumed so far. */
    constructor (limit: uint64, consumedSoFar: uint64)
      ensures fresh(meter) && transientGasUsed == 0 && meter.consumed == consumedSoFar && meter.limit == limit
    {
      var m := new GasMeter(limit);
      var ok := m.ConsumeGas(consumedSoFar);
      meter := m;
      transientGasUsed := 0;
    }

    /** `AddTransientGasUsed`: an error exactly when the sum does not fit 64 bits. */
    method AddTransientGasUsed(gasUsed: uint64) returns (ok: bool, total: uint64)
      modifies this
      ensures ok == (old(transientGasUsed) + gasUsed < U64)
      ensures ok ==> total == transientGasUsed == old(transientGasUsed) + gasUsed
      ensures !ok ==> total == 0 && transientGasUsed == old(transientGasUsed)
    {
      OverflowTest(transientGasUsed, gasUsed);
      var result := (transientGasUsed + gasUsed) % U64;
      if result < gasUsed {
        return false, 0;
      }
      transientGasUsed := result;
      return true, result;
    }

    /** `ResetGasMeterAndConsumeGas`: whatever was counted before, the meter then shows the given gas; it never panics. */
    method ResetGasMeterAndConsumeGas(gasUsed: uint64) returns (ok: bool)
      modifies meter
      ensures ok && meter.consumed == gasUsed
    {
      ok := meter.RefundGas(meter.consumed);
      if ok {
        ok := meter.ConsumeGas(gasUsed);
      }
    }

    /**
     * The messages of a transaction, one after the other; around each of them the store charges gas of its own.
     * The transaction goes through exactly when no such charge overflows the meter and the gas of the messages
     * fits 64 bits. The meter then shows their exact sum, after every message and whatever the store charged.
     */
    method ApplyMessages(gasUsed: seq<uint64>, storeGas: seq<uint64>) returns (ok: bool, shown: seq<uint64>)
      requires |storeGas| == |gasUsed| && transientGasUsed == 0
      modifies this, meter
      ensures ok == (ChargesFit(old(meter.consumed), gasUsed, storeGas) && Sum(gasUsed) < U64)
      ensures ok ==> |shown| == |gasUsed| && forall k :: 0 <= k < |gasUsed| ==> shown[k] == Sum(gasUsed[..k + 1])
      ensures ok && gasUsed != [] ==> meter.consumed == transientGasUsed == Sum(gasUsed)
    {
      shown := [];
      for k := 0 to |gasUsed|
        invariant transientGasUsed == Sum(gasUsed[..k])
        invariant meter.consumed == if k == 0 then old(meter.consumed) else Sum(gasUsed[..k])
        invariant forall j :: 0 <= j < k ==> Shown(old(meter.consumed), gasUsed, j) + storeGas[j] < U64
        invariant |shown| == k && forall j :: 0 <= j < k ==> shown[j] == Sum(gasUsed[..j + 1])
      {
        assert gasUsed[..k + 1][..k] == gasUsed[..k];
        assert Shown(old(meter.consumed), gasUsed, k) == meter.consumed;
        ok := meter.ConsumeGas(storeGas[k]);
        if !ok {
          return;
        }
        var total;
        ok, total := AddTransientGasUsed(gasUsed[k]);
        if !ok {
          SumGrows(gasUsed, k + 1);
          return;
        }
        ok := ResetGasMeterAndConsumeGas(total);
        shown := shown + [meter.consumed];
      }
      assert gasUsed[..|gasUsed|] == gasUsed;
      ok := true;
    }
  }
}
