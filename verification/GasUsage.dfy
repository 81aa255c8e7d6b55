/** The gas a message is charged for: consumption less the capped refund, but at least a share of the limit. */
module GasUsage {
  import opened EvmTypes

  /** The unit of `sdk.Dec`, a decimal with 18 fractional digits stored as an integer. */
  const PRECISION: int := 1_000_000_000_000_000_000

  /** Division by the unit, rounding halves to even (`chopPrecisionAndRound`). */
  function ChopRound(x: int): int {
    var magnitude: int := ChopHalfEven(if x < 0 then -x else x);
    if x < 0 then -magnitude else magnitude
  }

  function ChopHalfEven(x: nat): nat {
    var q, r := x / PRECISION, x % PRECISION;
    if 2 * r < PRECISION then q else if 2 * r > PRECISION then q + 1 else if q % 2 == 0 then q else q + 1
  }

  /** Division by the unit, rounding towards zero (`TruncateInt`). */
  function Truncate(x: int): int {
    if x < 0 then -(-x / PRECISION) else x / PRECISION
  }

  /** `int64` of an unsigned word. */
  function ToInt64(x: uint64): int {
    if x >= I64 then x - U64 else x
  }

  const REFUND_QUOTIENT := 2
  const REFUND_QUOTIENT_EIP3529 := 5

  /** The refund never exceeds the counter nor the given share of the consumption. */
  function GasToRefund(availableRefund: uint64, gasConsumed: uint64, refundQuotient: nat): (refund: uint64)
    requires refundQuotient > 0
    ensures refund <= availableRefund && refund * refundQuotient <= gasConsumed
    ensures refund == availableRefund || (refund + 1) * refundQuotient > gasConsumed
  {
    var refund := gasConsumed / refundQuotient;
    DivisionBounds(gasConsumed, refundQuotient);
    if refund > availableRefund then SmallerProduct(availableRefund, refund, refundQuotient); availableRefund else refund
  }

  lemma AtLeastOnce(p: nat, k: nat)
    requires k >= 1
    ensures p * k >= p
  {
    assert p * k == p * (k - 1) + p;
  }

  lemma Commute(a: int, b: int)
    ensures a * b == b * a
  {
  }

  lemma DivisionBounds(x: nat, q: nat)
    requires q > 0
    ensures 0 <= x / q <= x && x / q * q <= x < (x / q + 1) * q
  {
    var d, r := x / q, x % q;
    assert x == q * d + r;
    Commute(q, d);
    if d > 0 {
      AtLeastOnce(d, q);
    }
    assert (d + 1) * q == d * q + q;
  }

  lemma SmallerProduct(a: nat, b: nat, q: nat)
    requires a <= b
    ensures a * q <= b * q
  {
  }

  datatype Charge = Charged(gasUsed: uint64) | GasOverflow | NegativeGas

  /** What was consumed, less the refund. */
  function Net(limit: uint64, leftover: uint64, refundCounter: uint64, london: bool): (net: uint64)
    requires leftover <= limit
    ensures net <= limit - leftover
  {
    var consumed: uint64 := limit - leftover;
    consumed - GasToRefund(refundCounter, consumed, if london then REFUND_QUOTIENT_EIP3529 else REFUND_QUOTIENT)
  }

  /**
   * The charge as computed at the end of `ApplyMessageWithConfig`, with `multiplier` the raw integer of
   * `MinGasMultiplier`. Casts to int64 are taken as they are.
   */
  function ComputeCharge(limit: uint64, leftover: uint64, refundCounter: uint64, london: bool, multiplier: int): Charge {
    if limit < leftover then GasOverflow
    else
      var net := Net(limit, leftover, refundCounter, london);
      var minimum := ChopRound(ToInt64(limit) * PRECISION * multiplier);
      var gasUsed := Truncate(Max(minimum, ToInt64(net) * PRECISION));
      if gasUsed < 0 then NegativeGas else if gasUsed >= U64 then GasOverflow else Charged(gasUsed)
  }

  /**
   * The charge as intended: the consumption less the refund, which is the counter capped by a fifth of the
   * consumption from London on (EIP-3529) and by half of it before, but at least the given share of the limit.
   */
  function IntendedCharge(limit: uint64, leftover: uint64, refundCounter: uint64, london: bool, multiplier: nat): int
    requires leftover <= limit
  {
    var consumed := limit - leftover;
    Max(limit * multiplier / PRECISION, consumed - Min(refundCounter, if london then consumed / 5 else consumed / 2))
  }

  lemma NetIs(limit: uint64, leftover: uint64, refundCounter: uint64, london: bool)
    requires leftover <= limit
    ensures var consumed := limit - leftover;
            Net(limit, leftover, refundCounter, london) == consumed - Min(refundCounter, if london then consumed / 5 else consumed / 2)
  {
  }

  lemma DivideProduct(x: nat, p: nat)
    requires p > 0
    ensures x * p / p == x && x * p % p == 0
  {
    assert x * p == p * x;
    DivideUnique(x * p, p, x);
  }

  lemma DivideUnique(n: nat, p: nat, q: nat)
    requires p > 0 && n == p * q
    ensures n / p == q && n % p == 0
  {
    var d, r := n / p, n % p;
    assert n == p * d + r;
    assert p * q - p * d == p * (q - d);
    if q > d {
      AtLeastOnce(p, q - d);
    }
  }

  /** Multiplying a whole number by a decimal loses nothing, so the rounding mode is immaterial. */
  lemma ChopExact(n: int, multiplier: nat)
    ensures ChopRound(n * PRECISION * multiplier) == n * multiplier
  {
    var m: int := n * multiplier;
    assert n * PRECISION * multiplier == m * PRECISION;
    if m < 0 {
      DivideProduct(-m, PRECISION);
    } else {
      DivideProduct(m, PRECISION);
    }
  }

  lemma TruncateMax(share: nat, net: nat)
    ensures Truncate(Max(share, net * PRECISION)) == Max(share / PRECISION, net)
  {
    DivideProduct(net, PRECISION);
    DivisionBounds(share, PRECISION);
  }

  lemma ShareBounded(limit: nat, multiplier: nat)
    requires multiplier <= PRECISION
    ensures limit * multiplier / PRECISION <= limit
  {
    assert limit * multiplier <= limit * PRECISION;
    DivideProduct(limit, PRECISION);
    DivisionBounds(limit * multiplier, PRECISION);
  }

  /**
   * For gas limits below 2^63 and multipliers between zero and one there is a charge exactly when the EVM leaves over no
   * more than the limit. It is then the intended one and never exceeds the limit: `limit - gasUsed` does not underflow.
   */
  lemma ChargeIsIntended(limit: uint64, leftover: uint64, refundCounter: uint64, london: bool, multiplier: nat)
    requires limit < I64 && multiplier <= PRECISION
    ensures var charge := ComputeCharge(limit, leftover, refundCounter, london, multiplier);
            && (charge.Charged? <==> leftover <= limit)
            && (charge.Charged? ==> charge.gasUsed == IntendedCharge(limit, leftover, refundCounter, london, multiplier) <= limit)
  {
    hide ChopRound, Truncate, Net;
    if leftover <= limit {
      NetIs(limit, leftover, refundCounter, london);
      ChopExact(limit, multiplier);
      TruncateMax(limit * multiplier, Net(limit, leftover, refundCounter, london));
      ShareBounded(limit, multiplier);
    }
  }

  lemma NegativeTruncates(x: int)
    requires x <= 0
    ensures Truncate(x) <= 0
  {
    if x < 0 {
      DivisionBounds(-x, PRECISION);
    }
  }

  /**
   * From 2^63 on the cast turns the limit negative. The charge is then the intended one exactly when the net
   * consumption is itself below 2^63 and no smaller than the intended minimum.
   */
  lemma ChargeOfHugeLimit(limit: uint64, leftover: uint64, refundCounter: uint64, london: bool, multiplier: nat)
    requires leftover <= limit && I64 <= limit && multiplier <= PRECISION
    ensures var charge := ComputeCharge(limit, leftover, refundCounter, london, multiplier);
            var net := Net(limit, leftover, refundCounter, london);
            (charge.Charged? && charge.gasUsed == IntendedCharge(limit, leftover, refundCounter, london, multiplier))
            <==> net < I64 && limit * multiplier / PRECISION <= net
  {
    NetIs(limit, leftover, refundCounter, london);
    var net := Net(limit, leftover, refundCounter, london);
    var cast := ToInt64(limit);
    ChopExact(cast, multiplier);
    assert cast * multiplier <= 0;
    if net < I64 {
      TruncateMax(0, net);
      DivideProduct(net, PRECISION);
      assert Max(cast * multiplier, net * PRECISION) == net * PRECISION;
    } else {
      NegativeTruncates(Max(cast * multiplier, ToInt64(net) * PRECISION));
    }
  }

  /** With no minimum at all, a message that consumes 2^63 gas is charged nothing. */
  lemma HugeConsumptionIsFree()
    ensures ComputeCharge(I64, 0, 0, true, 0) == Charged(0)
    ensures IntendedCharge(I64, 0, 0, true, 0) == I64
  {
    ChopExact(ToInt64(I64), 0);
  }
}
