/** What a transaction pays: the fee taken in advance, the refund of unused gas, and the prices of both. */
module Fees {
  import opened EvmTypes
  import opened Store
  import opened Keepers
  import GasUsage

  datatype TxData =
    | LegacyTx(gasPrice: nat, gas: uint64, value: nat)
    | AccessListTx(gasPrice: nat, gas: uint64, value: nat)
    | DynamicFeeTx(gasTipCap: nat, gasFeeCap: nat, gas: uint64, value: nat)
  {
    /** The most the sender agreed to pay for a unit of gas. */
    function FeeCap(): nat {
      if DynamicFeeTx? then gasFeeCap else gasPrice
    }

    function TipCap(): nat {
      if DynamicFeeTx? then gasTipCap else gasPrice
    }

    function Fee(): nat {
      FeeCap() * gas
    }

    function Cost(): nat {
      Fee() + value
    }

    /** The tip on top of the base fee, within the cap (EIP-1559). */
    function EffectiveGasPrice(baseFee: nat): nat {
      Min(TipCap() + baseFee, FeeCap())
    }

    function EffectiveFee(baseFee: nat): nat {
      if DynamicFeeTx? then EffectiveGasPrice(baseFee) * gas else Fee()
    }
  }

  /** The London fork, whether the fee market charges a base fee at this height, and the base fee it reports. */
  datatype Market = Market(london: bool, enabled: bool, reported: Option<nat>) {

    /** A fee market that charges a base fee has one. */
    predicate Consistent() {
      enabled ==> reported.Some?
    }

    /** None before London, zero without a fee market, the reported base fee otherwise. */
    function BaseFee(): Option<nat> {
      if !london then None else if reported.None? then Some(0) else reported
    }
  }

  /** The fee taken in advance; none if the cap is below the base fee. */
  function FeeInAdvance(market: Market, tx: TxData): Option<nat>
    requires market.Consistent()
  {
    if market.london && market.enabled && tx.DynamicFeeTx? then
      if tx.gasFeeCap < market.reported.value then None else Some(tx.EffectiveFee(market.reported.value))
    else Some(tx.Fee())
  }

  /** The gas price of the message that is executed, and at which unused gas is refunded. */
  function MessagePrice(market: Market, tx: TxData): nat {
    var baseFee := market.BaseFee();
    if baseFee.None? then tx.FeeCap() else tx.EffectiveGasPrice(baseFee.value)
  }

  /** The price per unit at which the fee is taken in advance. */
  function AdvancePrice(market: Market, tx: TxData): nat
    requires market.Consistent()
  {
    if market.london && market.enabled then tx.EffectiveGasPrice(market.reported.value) else tx.FeeCap()
  }

  /** Takes the fee from the sender into the fee collector. */
  function Deduct(rules: Rules, collector: Address, w: World, sender: Address, market: Market, tx: TxData): Outcome
    requires market.Consistent()
  {
    var fee := FeeInAdvance(market, tx);
    if sender !in w.auth || fee.None? then Err
    else if fee.value == 0 then Ok(w)
    else SendCoins(rules, w, sender, collector, fee.value)
  }

  /** Returns what the leftover gas cost from the fee collector to the sender. */
  function Refund(rules: Rules, collector: Address, w: World, sender: Address, market: Market, tx: TxData, leftover: nat): Outcome {
    var remaining := leftover * MessagePrice(market, tx);
    if remaining == 0 then Ok(w)
    else if sender in rules.blocked then Err
    else SendCoins(rules, w, collector, sender, remaining)
  }

  // ---- prices ----

  lemma FeeIsAdvancePrice(market: Market, tx: TxData)
    requires market.Consistent()
    ensures FeeInAdvance(market, tx).Some? ==> FeeInAdvance(market, tx).value == AdvancePrice(market, tx) * tx.gas
  {
  }

  /** Unused gas is never refunded at a higher price than it was bought for. */
  lemma RefundPriceBounded(market: Market, tx: TxData)
    requires market.Consistent()
    ensures MessagePrice(market, tx) <= AdvancePrice(market, tx) <= tx.FeeCap()
  {
  }

  /**
   * Both prices are the same except for a dynamic-fee transaction after London while the fee market is not charging:
   * then the cap is taken in advance, and the refund is smaller if tip and base fee stay below the cap.
   */
  lemma PricesAgree(market: Market, tx: TxData)
    requires market.Consistent()
    ensures MessagePrice(market, tx) == AdvancePrice(market, tx)
       <==> !(tx.DynamicFeeTx? && market.london && !market.enabled && tx.gasTipCap + market.BaseFee().value < tx.gasFeeCap)
  {
  }

  /** What a sender adds to the base fee: the tip, as far as the cap leaves room for it (EIP-1559). */
  function Premium(tipCap: nat, feeCap: nat, baseFee: nat): nat
    requires baseFee <= feeCap
  {
    if tipCap <= feeCap - baseFee then tipCap else feeCap - baseFee
  }

  /** A dynamic-fee transaction pays base fee and premium, its cap if even the base fee exceeds that; others their price. */
  lemma PriceLaw(tx: TxData, baseFee: nat)
    ensures tx.DynamicFeeTx? && baseFee <= tx.gasFeeCap ==>
              tx.EffectiveGasPrice(baseFee) == baseFee + Premium(tx.gasTipCap, tx.gasFeeCap, baseFee)
    ensures tx.DynamicFeeTx? && baseFee > tx.gasFeeCap ==> tx.EffectiveGasPrice(baseFee) == tx.gasFeeCap
    ensures !tx.DynamicFeeTx? ==> tx.EffectiveGasPrice(baseFee) == tx.gasPrice
  {
  }

  /** The base fee the market asks: none before London, and none without a report. */
  function Asked(market: Market): nat {
    if market.london && market.reported.Some? then market.reported.value else 0
  }

  /** The prices of execution and of the advance fee, case by case. */
  lemma PricesLaw(market: Market, tx: TxData)
    requires market.Consistent()
    ensures !tx.DynamicFeeTx? ==> MessagePrice(market, tx) == AdvancePrice(market, tx) == tx.gasPrice
    ensures tx.DynamicFeeTx? && !market.london ==> MessagePrice(market, tx) == AdvancePrice(market, tx) == tx.gasFeeCap
    ensures tx.DynamicFeeTx? && market.london && Asked(market) <= tx.gasFeeCap ==>
              var price := Asked(market) + Premium(tx.gasTipCap, tx.gasFeeCap, Asked(market));
              MessagePrice(market, tx) == price && AdvancePrice(market, tx) == if market.enabled then price else tx.gasFeeCap
    ensures tx.DynamicFeeTx? && market.london && Asked(market) > tx.gasFeeCap ==>
              MessagePrice(market, tx) == AdvancePrice(market, tx) == tx.gasFeeCap
  {
    PriceLaw(tx, Asked(market));
  }

  // ---- settlement ----

  lemma SendEffect(rules: Rules, w: World, from: Address, to: Address, amount: nat)
    requires SendCoins(rules, w, from, to, amount).Ok? && from != to
    ensures var w' := SendCoins(rules, w, from, to, amount).world;
            && BankBalance(w', from) == BankBalance(w, from) - amount
            && BankBalance(w', to) == BankBalance(w, to) + amount
            && (forall a: Address :: a != from && a != to ==> BankBalance(w', a) == BankBalance(w, a))
            && w'.supply == w.supply && w'.auth == w.auth && w'.kv == w.kv
  {
  }

  /** What the collector keeps for good. */
  function Kept(market: Market, tx: TxData, gasUsed: nat): int
    requires market.Consistent()
  {
    AdvancePrice(market, tx) * tx.gas - MessagePrice(market, tx) * (tx.gas - gasUsed)
  }

  lemma KeptIs(p: nat, q: nat, gas: nat, used: nat)
    requires used <= gas && q <= p
    ensures p * gas - q * (gas - used) == p * used + (p - q) * (gas - used)
    ensures (p - q) * (gas - used) >= 0
    ensures (p - q) * (gas - used) == 0 <==> p == q || used == gas
    ensures q * (gas - used) <= p * gas
  {
    assert p * gas == p * used + p * (gas - used);
    assert (p - q) * (gas - used) == p * (gas - used) - q * (gas - used);
    if p > q && used < gas {
      GasUsage.AtLeastOnce(p - q, gas - used);
    }
  }

  /**
   * Fee and refund of one transaction, whatever happened to the world in between. The refund never exceeds the fee.
   * Sender and collector settle the same amount, at least `gasUsed` times the advance price, and exactly
   * that if both prices agree or all gas was used. No other balance moves, and neither does the supply.
   */
  lemma Settlement(rules: Rules, collector: Address, w0: World, w2: World, sender: Address, market: Market, tx: TxData, gasUsed: nat)
    requires market.Consistent() && sender != collector && gasUsed <= tx.gas
    requires Deduct(rules, collector, w0, sender, market, tx).Ok?
    requires Refund(rules, collector, w2, sender, market, tx, tx.gas - gasUsed).Ok?
    ensures var w1 := Deduct(rules, collector, w0, sender, market, tx).world;
            var w3 := Refund(rules, collector, w2, sender, market, tx, tx.gas - gasUsed).world;
            var paid := BankBalance(w0, sender) - BankBalance(w1, sender);
            var returned := BankBalance(w3, sender) - BankBalance(w2, sender);
            && paid == BankBalance(w1, collector) - BankBalance(w0, collector)
            && returned == BankBalance(w2, collector) - BankBalance(w3, collector)
            && 0 <= returned <= paid
            && paid - returned == Kept(market, tx, gasUsed) >= AdvancePrice(market, tx) * gasUsed
            && (paid - returned == AdvancePrice(market, tx) * gasUsed
                <==> MessagePrice(market, tx) == AdvancePrice(market, tx) || gasUsed == tx.gas)
            && (forall a: Address :: a != sender && a != collector ==>
                  BankBalance(w1, a) == BankBalance(w0, a) && BankBalance(w3, a) == BankBalance(w2, a))
            && w1.supply == w0.supply && w3.supply == w2.supply
  {
    hide SendCoins, BankBalance, MessagePrice, AdvancePrice, FeeInAdvance;
    FeeIsAdvancePrice(market, tx);
    RefundPriceBounded(market, tx);
    var p, q := AdvancePrice(market, tx), MessagePrice(market, tx);
    KeptIs(p, q, tx.gas, gasUsed);
    GasUsage.Commute(q, tx.gas - gasUsed);
    if p * tx.gas > 0 {
      SendEffect(rules, w0, sender, collector, p * tx.gas);
    }
    if q * (tx.gas - gasUsed) > 0 {
      SendEffect(rules, w2, collector, sender, q * (tx.gas - gasUsed));
    }
  }

  lemma RefundWithinFee(market: Market, tx: TxData, gasUsed: nat)
    requires market.Consistent() && gasUsed <= tx.gas && FeeInAdvance(market, tx).Some?
    ensures FeeInAdvance(market, tx).value - (tx.gas - gasUsed) * MessagePrice(market, tx) == Kept(market, tx, gasUsed) >= 0
  {
    hide MessagePrice, AdvancePrice, FeeInAdvance;
    FeeIsAdvancePrice(market, tx);
    RefundPriceBounded(market, tx);
    KeptIs(AdvancePrice(market, tx), MessagePrice(market, tx), tx.gas, gasUsed);
    GasUsage.Commute(MessagePrice(market, tx), tx.gas - gasUsed);
  }

  /** The refund goes through for every sender the bank accepts, as long as the collector holds as much as the fee. */
  lemma RefundSucceeds(rules: Rules, collector: Address, w: World, sender: Address, market: Market, tx: TxData, gasUsed: nat)
    requires market.Consistent() && sender != collector && gasUsed <= tx.gas && sender !in rules.blocked
    requires rules.Locked(collector) == 0
    requires FeeInAdvance(market, tx).Some? && BankBalance(w, collector) >= FeeInAdvance(market, tx).value
    ensures var r := Refund(rules, collector, w, sender, market, tx, tx.gas - gasUsed);
            && r.Ok?
            && BankBalance(r.world, collector)
               == BankBalance(w, collector) - FeeInAdvance(market, tx).value + Kept(market, tx, gasUsed)
  {
    hide MessagePrice, FeeInAdvance, Kept;
    RefundWithinFee(market, tx, gasUsed);
    var remaining := (tx.gas - gasUsed) * MessagePrice(market, tx);
    if remaining > 0 {
      SendEffect(rules, w, collector, sender, remaining);
    }
  }

  /** A refund succeeds exactly when there is nothing to return, or the sender may receive it and the collector has it. */
  lemma RefundIff(rules: Rules, collector: Address, w: World, sender: Address, market: Market, tx: TxData, leftover: nat)
    requires sender != collector
    ensures var amount := leftover * MessagePrice(market, tx);
            Refund(rules, collector, w, sender, market, tx, leftover).Ok? <==>
              amount == 0 || (sender !in rules.blocked && amount + rules.Locked(collector) <= BankBalance(w, collector))
    ensures Refund(rules, collector, w, sender, market, tx, leftover).Ok? ==>
              var w' := Refund(rules, collector, w, sender, market, tx, leftover).world;
              BankBalance(w', sender) == BankBalance(w, sender) + leftover * MessagePrice(market, tx)
  {
    hide MessagePrice;
    var amount := leftover * MessagePrice(market, tx);
    if Refund(rules, collector, w, sender, market, tx, leftover).Ok? && amount != 0 {
      SendEffect(rules, w, collector, sender, amount);
    }
  }

  // ---- transactions of several messages ----

  /** A message, and the gas it is finally charged for. */
  datatype Charge = Charge(sender: Address, tx: TxData, gasUsed: nat)

  /** The ante handler takes the fees of all messages, in order. */
  function DeductAll(rules: Rules, collector: Address, w: World, market: Market, charges: seq<Charge>): Outcome
    requires market.Consistent()
  {
    if charges == [] then Ok(w)
    else
      var c := charges[|charges| - 1];
      match DeductAll(rules, collector, w, market, charges[..|charges| - 1])
      case Err => Err
      case Ok(w1) => Deduct(rules, collector, w1, c.sender, market, c.tx)
  }

  function TotalFees(market: Market, charges: seq<Charge>): nat
    requires market.Consistent()
  {
    if charges == [] then 0
    else
      var fee := FeeInAdvance(market, charges[|charges| - 1].tx);
      TotalFees(market, charges[..|charges| - 1]) + if fee.Some? then fee.value else 0
  }

  function TotalKept(market: Market, charges: seq<Charge>): int
    requires market.Consistent()
  {
    if charges == [] then 0
    else TotalKept(market, charges[..|charges| - 1]) + Kept(market, charges[|charges| - 1].tx, charges[|charges| - 1].gasUsed)
  }

  lemma {:induction false} DeductAllEffect(rules: Rules, collector: Address, w: World, market: Market, charges: seq<Charge>)
    requires market.Consistent() && DeductAll(rules, collector, w, market, charges).Ok?
    requires forall i :: 0 <= i < |charges| ==> charges[i].sender != collector
    ensures BankBalance(DeductAll(rules, collector, w, market, charges).world, collector)
         == BankBalance(w, collector) + TotalFees(market, charges)
    ensures forall i :: 0 <= i < |charges| ==> FeeInAdvance(market, charges[i].tx).Some?
  {
    hide FeeInAdvance, SendCoins, BankBalance;
    if charges != [] {
      var last := |charges| - 1;
      var front, c := charges[..last], charges[last];
      DeductAllEffect(rules, collector, w, market, front);
      var w1 := DeductAll(rules, collector, w, market, front).world;
      var fee := FeeInAdvance(market, c.tx).value;
      if fee > 0 {
        SendEffect(rules, w1, c.sender, collector, fee);
      }
      forall i | 0 <= i < |charges| ensures FeeInAdvance(market, charges[i].tx).Some? {
        if i < last {
          assert front[i] == charges[i];
        }
      }
    }
  }

  lemma {:induction false} FeesGrow(market: Market, charges: seq<Charge>, k: nat)
    requires market.Consistent() && k <= |charges|
    ensures TotalFees(market, charges[..k]) <= TotalFees(market, charges)
  {
    if k == |charges| {
      assert charges[..k] == charges;
    } else {
      FeesGrow(market, charges[..|charges| - 1], k);
      assert charges[..|charges| - 1][..k] == charges[..k];
    }
  }

  function RefundOf(rules: Rules, collector: Address, market: Market, c: Charge, w: World): Outcome
    requires c.gasUsed <= c.tx.gas
  {
    Refund(rules, collector, w, c.sender, market, c.tx, c.tx.gas - c.gasUsed)
  }

  ghost predicate Proper(rules: Rules, collector: Address, charges: seq<Charge>) {
    && rules.Locked(collector) == 0
    && forall i :: 0 <= i < |charges| ==>
         charges[i].sender != collector && charges[i].sender !in rules.blocked && charges[i].gasUsed <= charges[i].tx.gas
  }

  /**
   * `ws[i]` is the world the i-th refund is made in. The collector loses nothing before the first refund nor between
   * one refund and the next; if `exactly`, it gains nothing either.
   */
  ghost predicate Between(rules: Rules, collector: Address, market: Market, charges: seq<Charge>, w1: World, ws: seq<World>, exactly: bool)
    requires |ws| == |charges| && Proper(rules, collector, charges)
  {
    forall i :: 0 <= i < |ws| ==> Follows(collector, HeldBefore(rules, collector, market, charges, w1, ws, i), ws[i], exactly)
  }

  /** What the collector held right before the i-th refund's turn. */
  ghost function HeldBefore(rules: Rules, collector: Address, market: Market, charges: seq<Charge>, w1: World, ws: seq<World>, i: nat): int
    requires |ws| == |charges| && Proper(rules, collector, charges) && i <= |ws|
  {
    if i == 0 then BankBalance(w1, collector)
    else
      var r := RefundOf(rules, collector, market, charges[i - 1], ws[i - 1]);
      if r.Ok? then BankBalance(r.world, collector) else BankBalance(ws[i - 1], collector)
  }

  predicate Follows(collector: Address, held: int, w: World, exactly: bool) {
    held <= BankBalance(w, collector) && (exactly ==> held == BankBalance(w, collector))
  }

  lemma {:induction false} RefundsUpTo(rules: Rules, collector: Address, market: Market, charges: seq<Charge>,
                                       w0: World, ws: seq<World>, exactly: bool, k: nat)
    requires market.Consistent() && |ws| == |charges| && Proper(rules, collector, charges) && k <= |charges|
    requires DeductAll(rules, collector, w0, market, charges).Ok?
    requires Between(rules, collector, market, charges, DeductAll(rules, collector, w0, market, charges).world, ws, exactly)
    ensures forall i :: 0 <= i < k ==> RefundOf(rules, collector, market, charges[i], ws[i]).Ok?
    ensures var held := HeldBefore(rules, collector, market, charges, DeductAll(rules, collector, w0, market, charges).world, ws, k);
            var due := BankBalance(w0, collector) + TotalKept(market, charges[..k])
                       + TotalFees(market, charges) - TotalFees(market, charges[..k]);
            held >= due && (exactly ==> held == due)
  {
    hide FeeInAdvance, RefundOf, Kept, BankBalance, DeductAll, TotalFees, TotalKept, HeldBefore;
    var w1 := DeductAll(rules, collector, w0, market, charges).world;
    DeductAllEffect(rules, collector, w0, market, charges);
    if k == 0 {
      NothingSummed(market);
      HeldFirst(rules, collector, market, charges, w1, ws);
    } else {
      var i := k - 1;
      RefundsUpTo(rules, collector, market, charges, w0, ws, exactly, i);
      KeptNonNegative(market, charges, i);
      FeesGrow(market, charges, k);
      OneMore(market, charges, i);
      assert Follows(collector, HeldBefore(rules, collector, market, charges, w1, ws, i), ws[i], exactly);
      HeldNext(rules, collector, market, charges, w1, ws, i);
    }
  }

  lemma NothingSummed(market: Market)
    requires market.Consistent()
    ensures TotalFees(market, []) == 0 && TotalKept(market, []) == 0
  {
  }

  lemma OneMore(market: Market, charges: seq<Charge>, i: nat)
    requires market.Consistent() && i < |charges| && FeeInAdvance(market, charges[i].tx).Some?
    ensures TotalFees(market, charges[..i + 1]) == TotalFees(market, charges[..i]) + FeeInAdvance(market, charges[i].tx).value
    ensures TotalKept(market, charges[..i + 1]) == TotalKept(market, charges[..i]) + Kept(market, charges[i].tx, charges[i].gasUsed)
  {
    hide FeeInAdvance, Kept;
    assert charges[..i + 1][..i] == charges[..i];
  }

  lemma HeldFirst(rules: Rules, collector: Address, market: Market, charges: seq<Charge>, w1: World, ws: seq<World>)
    requires |ws| == |charges| && Proper(rules, collector, charges)
    ensures HeldBefore(rules, collector, market, charges, w1, ws, 0) == BankBalance(w1, collector)
  {
  }

  lemma HeldNext(rules: Rules, collector: Address, market: Market, charges: seq<Charge>, w1: World, ws: seq<World>, i: nat)
    requires market.Consistent() && |ws| == |charges| && Proper(rules, collector, charges) && i < |ws|
    requires FeeInAdvance(market, charges[i].tx).Some? && BankBalance(ws[i], collector) >= FeeInAdvance(market, charges[i].tx).value
    ensures RefundOf(rules, collector, market, charges[i], ws[i]).Ok?
    ensures HeldBefore(rules, collector, market, charges, w1, ws, i + 1)
         == BankBalance(ws[i], collector) - FeeInAdvance(market, charges[i].tx).value + Kept(market, charges[i].tx, charges[i].gasUsed)
  {
    hide FeeInAdvance, Refund, Kept, BankBalance;
    RefundSucceeds(rules, collector, ws[i], charges[i].sender, market, charges[i].tx, charges[i].gasUsed);
  }

  lemma {:induction false} KeptNonNegative(market: Market, charges: seq<Charge>, k: nat)
    requires market.Consistent() && k <= |charges|
    requires forall i :: 0 <= i < |charges| ==> charges[i].gasUsed <= charges[i].tx.gas && FeeInAdvance(market, charges[i].tx).Some?
    ensures TotalKept(market, charges[..k]) >= 0
  {
    hide FeeInAdvance, Kept;
    if k > 0 {
      KeptNonNegative(market, charges, k - 1);
      assert charges[..k][..k - 1] == charges[..k - 1];
      RefundWithinFee(market, charges[k - 1].tx, charges[k - 1].gasUsed);
    }
  }

  /**
   * A transaction of any number of messages, all fees taken first and the refunds made one by one: every refund goes
   * through as long as the collector loses nothing in between, and the collector ends up with at least the sum of
   * what it keeps of each message, exactly that if it gains nothing in between.
   */
  lemma AllRefundsSucceed(rules: Rules, collector: Address, market: Market, charges: seq<Charge>,
                          w0: World, ws: seq<World>, exactly: bool)
    requires market.Consistent() && |ws| == |charges| && Proper(rules, collector, charges)
    requires DeductAll(rules, collector, w0, market, charges).Ok?
    requires Between(rules, collector, market, charges, DeductAll(rules, collector, w0, market, charges).world, ws, exactly)
    ensures forall i :: 0 <= i < |charges| ==> RefundOf(rules, collector, market, charges[i], ws[i]).Ok?
    ensures var held := HeldBefore(rules, collector, market, charges, DeductAll(rules, collector, w0, market, charges).world, ws, |charges|);
            var gained := held - BankBalance(w0, collector);
            gained >= TotalKept(market, charges) >= 0 && (exactly ==> gained == TotalKept(market, charges))
  {
    hide RefundOf, BankBalance, DeductAll, HeldBefore, Between;
    RefundsUpTo(rules, collector, market, charges, w0, ws, exactly, |charges|);
    DeductAllEffect(rules, collector, w0, market, charges);
    KeptNonNegative(market, charges, |charges|);
    assert charges[..|charges|] == charges;
  }

  /**
   * What the collector keeps of a message. A transaction of an older type pays `gasUsed` times its gas price. A
   * dynamic-fee transaction pays `gasUsed` times base fee plus premium in a charging market, `gasUsed` times its cap
   * before London, and its whole limit at the cap less the refund when the market does not charge.
   */
  lemma ExactSettlement(market: Market, tx: TxData, gasUsed: nat)
    requires market.Consistent() && gasUsed <= tx.gas
    ensures !tx.DynamicFeeTx? ==> Kept(market, tx, gasUsed) == gasUsed * tx.gasPrice
    ensures tx.DynamicFeeTx? && !market.london ==> Kept(market, tx, gasUsed) == gasUsed * tx.gasFeeCap
    ensures tx.DynamicFeeTx? && market.london && Asked(market) <= tx.gasFeeCap ==>
              var price := Asked(market) + Premium(tx.gasTipCap, tx.gasFeeCap, Asked(market));
              && (market.enabled ==> Kept(market, tx, gasUsed) == gasUsed * price)
              && (!market.enabled ==> Kept(market, tx, gasUsed) == tx.gas * tx.gasFeeCap - (tx.gas - gasUsed) * price)
  {
    hide MessagePrice, AdvancePrice;
    PricesLaw(market, tx);
    var p, q := AdvancePrice(market, tx), MessagePrice(market, tx);
    RefundPriceBounded(market, tx);
    KeptIs(p, q, tx.gas, gasUsed);
    GasUsage.Commute(p, gasUsed);
    GasUsage.Commute(p, tx.gas);
    GasUsage.Commute(q, tx.gas - gasUsed);
  }

  /** The fee in advance, from the fields of the transaction alone. */
  function AdvanceFee(market: Market, tx: TxData): nat {
    if !tx.DynamicFeeTx? then tx.gasPrice * tx.gas
    else if market.london && market.enabled && Asked(market) <= tx.gasFeeCap then
      (Asked(market) + Premium(tx.gasTipCap, tx.gasFeeCap, Asked(market))) * tx.gas
    else tx.gasFeeCap * tx.gas
  }

  /**
   * Taking the fee succeeds exactly when the sender has an account, a charging market asks no more than the cap of a
   * dynamic-fee transaction, and the fee is zero or covered by coins that are not locked. It then moves exactly the fee.
   */
  lemma DeductIff(rules: Rules, collector: Address, w: World, sender: Address, market: Market, tx: TxData)
    requires market.Consistent() && sender != collector
    ensures Deduct(rules, collector, w, sender, market, tx).Ok? <==>
              && sender in w.auth
              && (tx.DynamicFeeTx? && market.london && market.enabled ==> Asked(market) <= tx.gasFeeCap)
              && (AdvanceFee(market, tx) == 0 || AdvanceFee(market, tx) + rules.Locked(sender) <= BankBalance(w, sender))
    ensures Deduct(rules, collector, w, sender, market, tx).Ok? ==>
              var w' := Deduct(rules, collector, w, sender, market, tx).world;
              && BankBalance(w', sender) == BankBalance(w, sender) - AdvanceFee(market, tx)
              && BankBalance(w', collector) == BankBalance(w, collector) + AdvanceFee(market, tx)
              && (forall a: Address :: a != sender && a != collector ==> BankBalance(w', a) == BankBalance(w, a))
  {
    hide AdvancePrice;
    FeeIsAdvancePrice(market, tx);
    PricesLaw(market, tx);
    if Deduct(rules, collector, w, sender, market, tx).Ok? && AdvanceFee(market, tx) > 0 {
      SendEffect(rules, w, sender, collector, AdvanceFee(market, tx));
    }
  }

  /** After London without a fee market, a dynamic-fee transaction can pay for gas it did not use. */
  lemma UnusedGasIsPaid()
    ensures var market := Market(true, false, None);
            var tx := DynamicFeeTx(0, 2, 10, 0);
            Kept(market, tx, 4) == 20 && MessagePrice(market, tx) * 4 == 0 && AdvancePrice(market, tx) * 4 == 8
  {
  }

  // ---- the balance check ----

  predicate CheckSenderBalance(balance: int, tx: TxData) {
    balance >= 0 && balance >= tx.Cost()
  }

  /** A sender that passes the balance check can pay the fee and still afford the value, in every market. */
  lemma CheckedBalanceSuffices(market: Market, tx: TxData, balance: int)
    requires market.Consistent() && CheckSenderBalance(balance, tx) && FeeInAdvance(market, tx).Some?
    ensures balance - FeeInAdvance(market, tx).value >= tx.value
  {
    FeeIsAdvancePrice(market, tx);
    RefundPriceBounded(market, tx);
    GasUsage.SmallerProduct(AdvancePrice(market, tx), tx.FeeCap(), tx.gas);
  }

  ghost predicate Affords(market: Market, tx: TxData, balance: int) {
    market.Consistent() && FeeInAdvance(market, tx).Some? ==> balance - FeeInAdvance(market, tx).value >= tx.value
  }

  /** The balance check is exact: it passes if and only if the sender can afford fee and value in every market. */
  lemma CheckIsExact(tx: TxData, balance: int)
    ensures CheckSenderBalance(balance, tx) <==> forall market: Market :: Affords(market, tx, balance)
    ensures CheckSenderBalance(balance, tx) <==>
              balance >= (if tx.DynamicFeeTx? then tx.gasFeeCap else tx.gasPrice) * tx.gas + tx.value
  {
    if CheckSenderBalance(balance, tx) {
      forall market: Market ensures Affords(market, tx, balance) {
        if market.Consistent() && FeeInAdvance(market, tx).Some? {
          CheckedBalanceSuffices(market, tx, balance);
        }
      }
    } else {
      assert !Affords(Market(false, false, None), tx, balance);
    }
  }

  // ---- the keeper's steps ----

  /** `DeductTxCostsFromUserBalance`. */
  method DeductTxCosts(keeper: Keeper, collector: Address, sender: Address, market: Market, tx: TxData) returns (ok: bool, fee: nat)
    requires market.Consistent()
    modifies keeper`bank
    ensures ok == Deduct(keeper.rules, collector, old(keeper.Stored()), sender, market, tx).Ok?
    ensures ok ==> keeper.Stored() == Deduct(keeper.rules, collector, old(keeper.Stored()), sender, market, tx).world
    ensures ok ==> FeeInAdvance(market, tx) == Some(fee) && fee == AdvanceFee(market, tx)
  {
    hide SendCoins, AdvancePrice;
    FeeIsAdvancePrice(market, tx);
    PricesLaw(market, tx);
    fee := 0;
    if sender !in keeper.auth {
      return false, 0;
    }
    if market.london && market.enabled && tx.DynamicFeeTx? {
      var baseFee := market.reported.value;
      if tx.gasFeeCap < baseFee {
        return false, 0;
      }
      fee := tx.EffectiveFee(baseFee);
    } else {
      fee := tx.Fee();
    }
    if fee == 0 {
      return true, 0;
    }
    ok := keeper.Send(sender, collector, fee);
  }

  /** `RefundGas`. */
  method RefundGas(keeper: Keeper, collector: Address, sender: Address, market: Market, tx: TxData, leftover: uint64) returns (ok: bool)
    modifies keeper`bank
    ensures ok == Refund(keeper.rules, collector, old(keeper.Stored()), sender, market, tx, leftover).Ok?
    ensures ok ==> keeper.Stored() == Refund(keeper.rules, collector, old(keeper.Stored()), sender, market, tx, leftover).world
  {
    hide SendCoins;
    var remaining := leftover * MessagePrice(market, tx);
    if remaining == 0 {
      return true;
    }
    if sender in keeper.rules.blocked {
      return false;
    }
    ok := keeper.Send(collector, sender, remaining);
  }
}
