/** Gas estimation: a binary search for the least gas limit a message executes with. */
module Estimates {
  import opened EvmTypes

  /** What trying a gas limit gives: success, a failure that more gas may cure, or an error that it cannot. */
  datatype Probe = Works | Fails(vmError: Option<string>) | Fatal(error: string)

  type Oracle = uint64 -> Probe

  datatype Found = Gas(gas: uint64) | Error(error: string)

  /** More gas never turns a working message into a failing one. */
  ghost predicate Monotone(probe: Oracle) {
    forall g: uint64, h: uint64 :: g <= h && probe(g).Works? ==> probe(h).Works?
  }

  ghost predicate NeverFatal(probe: Oracle) {
    forall g: uint64 :: !probe(g).Fatal?
  }

  /** `(hi + lo) / 2` on 64-bit words. */
  function Middle(lo: uint64, hi: uint64): uint64 {
    (hi + lo) % U64 / 2
  }

  // ---- when the search ends ----

  /** The search goes on while the bounds are more than one apart, on 64-bit words. */
  predicate Apart(lo: uint64, hi: uint64) {
    (lo + 1) % U64 < hi
  }

  /** The search from these bounds ends within n probes. */
  predicate EndsWithin(lo: uint64, hi: uint64, probe: Oracle, n: nat)
    decreases n
  {
    if !Apart(lo, hi) then true
    else if n == 0 then false
    else
      var mid := Middle(lo, hi);
      match probe(mid)
      case Fatal(_) => true
      case Fails(_) => EndsWithin(mid, hi, probe, n - 1)
      case Works => EndsWithin(lo, mid, probe, n - 1)
  }

  ghost predicate Ends(lo: uint64, hi: uint64, probe: Oracle) {
    exists n: nat :: EndsWithin(lo, hi, probe, n)
  }

  function Power(k: nat): nat {
    if k == 0 then 1 else 2 * Power(k - 1)
  }

  lemma Power63()
    ensures Power(63) == I64
  {
    assert Power(8) == 0x100;
    assert Power(16) == 0x1_0000;
    assert Power(24) == 0x100_0000;
    assert Power(32) == 0x1_0000_0000;
    assert Power(40) == 0x100_0000_0000;
    assert Power(48) == 0x1_0000_0000_0000;
    assert Power(56) == 0x100_0000_0000_0000;
  }

  /** Every probe halves the distance, so k probes are enough for a distance of two to the power of k. */
  lemma {:induction false} EndsBelow(lo: uint64, hi: uint64, probe: Oracle, k: nat)
    requires lo < hi <= I64 && hi - lo <= Power(k)
    ensures EndsWithin(lo, hi, probe, k)
    decreases k
  {
    if Apart(lo, hi) {
      var mid := Middle(lo, hi);
      assert lo < mid < hi && mid - lo <= Power(k - 1) && hi - mid <= Power(k - 1);
      if probe(mid).Fails? {
        EndsBelow(mid, hi, probe, k - 1);
      } else if probe(mid).Works? {
        EndsBelow(lo, mid, probe, k - 1);
      }
    }
  }

  function AlwaysFails(gas: uint64): Probe {
    Fails(None)
  }

  /** Above 2^63 a midpoint wraps before the lower bound can get next to the upper one. */
  lemma StaysApart(lo: uint64, hi: uint64)
    requires lo + 1 < hi && hi > I64
    ensures Middle(lo, hi) + 1 < hi
  {
  }

  lemma {:induction false} NeverEnds(lo: uint64, hi: uint64, n: nat)
    requires lo + 1 < hi && hi > I64
    ensures !EndsWithin(lo, hi, AlwaysFails, n)
    decreases n
  {
    if n > 0 {
      StaysApart(lo, hi);
      NeverEnds(Middle(lo, hi), hi, n - 1);
    }
  }

  /**
   * The exact condition for the search to end: with bounds that are apart, it ends for every message if and only if
   * the upper bound is at most 2^63, and then after at most 63 probes. Above that, a message that fails with every gas
   * limit is probed for ever.
   */
  lemma SearchEndsIff(lo: uint64, hi: uint64)
    requires lo + 1 < hi
    ensures (forall probe: Oracle :: Ends(lo, hi, probe)) <==> hi <= I64
    ensures hi <= I64 ==> forall probe: Oracle :: EndsWithin(lo, hi, probe, 63)
    ensures hi > I64 ==> !Ends(lo, hi, AlwaysFails)
  {
    hide EndsWithin;
    if hi <= I64 {
      Power63();
      forall probe: Oracle ensures EndsWithin(lo, hi, probe, 63) {
        EndsBelow(lo, hi, probe, 63);
      }
      assert forall probe: Oracle :: EndsWithin(lo, hi, probe, 63) ==> Ends(lo, hi, probe);
    } else {
      forall n: nat ensures !EndsWithin(lo, hi, AlwaysFails, n) {
        NeverEnds(lo, hi, n);
      }
      assert !Ends(lo, hi, AlwaysFails);
    }
  }

  /** Every search of gas estimation ends when its allowance is at most 2^63, whatever the gas cap. */
  lemma EstimateEnds(allowance: uint64, probe: Oracle)
    requires allowance <= I64
    ensures Ends(TX_GAS - 1, allowance, probe)
  {
    if Apart(TX_GAS - 1, allowance) {
      Power63();
      EndsBelow(TX_GAS - 1, allowance, probe, 63);
    } else {
      assert EndsWithin(TX_GAS - 1, allowance, probe, 0);
    }
  }

  // ---- what the search finds ----

  /**
   * `BinSearch`, on all inputs on which it ends: the answer is the upper bound or works, and never exceeds the upper
   * bound. For upper bounds up to 2^63 it lies above the lower bound, and what is one below it fails or is the lower bound.
   */
  method BinSearch(lo: uint64, hi: uint64, probe: Oracle) returns (r: Found)
    requires Ends(lo, hi, probe)
    ensures r.Gas? ==> r.gas <= hi && (r.gas == hi || probe(r.gas).Works?)
    ensures r.Gas? && lo < hi <= I64 ==> lo < r.gas && (lo + 1 < r.gas ==> probe(r.gas - 1).Fails?)
    ensures !Apart(lo, hi) ==> r == Gas(hi)
    ensures r.Error? ==> exists g: uint64 :: g < hi && probe(g) == Fatal(r.error)
  {
    hide Middle;
    ghost var n: nat :| EndsWithin(lo, hi, probe, n);
    var l: uint64, h: uint64 := lo, hi;
    while (l + 1) % U64 < h
      invariant EndsWithin(l, h, probe, n)
      invariant h <= hi && (l == lo || probe(l).Fails?) && (h == hi || probe(h).Works?)
      invariant lo < hi <= I64 ==> lo <= l < h
      invariant !Apart(lo, hi) ==> l == lo && h == hi
      decreases n
    {
      var mid := Middle(l, h);
      MiddleBelow(l, h);
      var p := probe(mid);
      if p.Fatal? {
        return Error(p.error);
      }
      if p.Fails? {
        l := mid;
      } else {
        h := mid;
      }
      n := n - 1;
    }
    return Gas(h);
  }

  lemma MiddleBelow(lo: uint64, hi: uint64)
    requires Apart(lo, hi)
    ensures Middle(lo, hi) < hi
    ensures lo + 1 < hi <= I64 ==> lo < Middle(lo, hi)
  {
  }

  const TX_GAS: uint64 := 21000

  /** The highest gas limit that may be tried. */
  function Allowance(gas: Option<uint64>, maxGas: Option<int>, gasCap: uint64): uint64
    requires maxGas.Some? ==> maxGas.value < I64
  {
    var wanted: uint64 :=
      if gas.Some? && gas.value >= TX_GAS then gas.value
      else if maxGas.Some? && maxGas.value > 0 then maxGas.value
      else gasCap;
    if gasCap != 0 && wanted > gasCap then gasCap else wanted
  }

  /**
   * The highest gas limit that is tried: the requested gas if that is enough for a transaction at all, else the
   * block's limit if it has one, else the cap; and never more than the cap.
   */
  lemma AllowanceLaw(gas: Option<uint64>, maxGas: Option<int>, gasCap: uint64)
    requires gasCap >= 21000 && (maxGas.Some? ==> maxGas.value < I64)
    ensures var top := Allowance(gas, maxGas, gasCap);
            && top <= gasCap
            && (gas.Some? && 21000 <= gas.value <= gasCap ==> top == gas.value)
            && (gas.Some? && gas.value > gasCap ==> top == gasCap)
            && ((gas.None? || gas.value < 21000) && maxGas.Some? && 0 < maxGas.value <= gasCap ==> top == maxGas.value)
            && ((gas.None? || gas.value < 21000) && !(maxGas.Some? && 0 < maxGas.value <= gasCap) ==> top == gasCap)
  {
  }

  /**
   * `EstimateGas`: an estimate is within the allowance and executes without a VM error. What is one below it fails,
   * unless it is the gas every transaction costs or the allowance lies below that. If executability is monotone in
   * gas the estimate is the least gas from 21000 on that works, and there is one exactly when the whole allowance works.
   * This is stated for all inputs on which the search ends; with an allowance of at most 2^63 it always does.
   */
  method EstimateGas(gas: Option<uint64>, maxGas: Option<int>, gasCap: uint64, probe: Oracle) returns (r: Found)
    requires maxGas.Some? ==> maxGas.value < I64
    requires gasCap >= TX_GAS ==> Ends(TX_GAS - 1, Allowance(gas, maxGas, gasCap), probe)
    ensures gasCap < 21000 ==> r.Error?
    ensures gasCap >= 21000 ==>
              var top: uint64 := if gas.Some? && gas.value >= 21000 then Min(gas.value, gasCap)
                                 else if maxGas.Some? && maxGas.value > 0 then Min(maxGas.value, gasCap)
                                 else gasCap;
              && (r.Gas? ==> r.gas <= top && probe(r.gas).Works?)
              && (r.Gas? && r.gas > 21000 && top <= I64 ==> probe(r.gas - 1).Fails?)
              && (r.Error? ==> probe(top).Fails? || exists g: uint64 :: g <= top && probe(g) == Fatal(r.error))
              && (r.Gas? && Monotone(probe) ==> probe(top).Works?)
              && (r.Gas? && Monotone(probe) && top <= I64 ==> forall g: uint64 :: 21000 <= g < r.gas ==> !probe(g).Works?)
  {
    if gasCap < TX_GAS {
      return Error("gas cap cannot be lower than 21,000");
    }
    var lo: uint64 := TX_GAS - 1;
    var hi: uint64;
    if gas.Some? && gas.value >= TX_GAS {
      hi := gas.value;
    } else if maxGas.Some? && maxGas.value > 0 {
      hi := maxGas.value;
    } else {
      hi := gasCap;
    }
    if gasCap != 0 && hi > gasCap {
      hi := gasCap;
    }
    var allowance := hi;
    r := BinSearch(lo, hi, probe);
    if r.Error? {
      return;
    }
    if r.gas == allowance {
      var p := probe(r.gas);
      if p.Fatal? {
        return Error(p.error);
      }
      if p.Fails? {
        return Error(if p.vmError.Some? then p.vmError.value else "gas required exceeds allowance");
      }
    }
  }
}
