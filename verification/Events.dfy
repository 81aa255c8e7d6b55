/**
 * The two-part event stream of a transaction: the ante handler announces every message, the
 * message server then reports each message it executed.
 */
module Events {
  import opened EvmTypes
  import opened Text

  datatype Attribute = Attribute(key: string, value: string)

  datatype Event = Event(kind: string, attrs: seq<Attribute>)

  const ETHEREUM_TX := "ethereum_tx"
  const TX_LOG := "tx_log"

  const ETHEREUM_TX_HASH := "ethereumTxHash"
  const TX_INDEX := "txIndex"
  const TX_GAS_USED := "txGasUsed"
  const ETHEREUM_TX_FAILED := "ethereumTxFailed"
  const AMOUNT := "amount"
  const TX_HASH := "txHash"
  const RECIPIENT := "recipient"
  const TX_LOG_ATTRIBUTE := "txLog"

  /** A message and what executing it gave: the parts that events are made of. */
  datatype Message = Message(
    hash: Hash,
    amount: string,
    tendermintHash: Option<string>,
    recipient: Option<string>,
    gasUsed: uint64,
    vmError: string,
    logs: seq<string>)

  // ---- printing ----

  /** The event of `EthEmitEventDecorator` for one message. */
  function AnteEvent(hash: Hash, txIndex: uint64): Event {
    Event(ETHEREUM_TX, [Attribute(ETHEREUM_TX_HASH, HashHex(hash)), Attribute(TX_INDEX, FormatUint(txIndex))])
  }

  function Optional(key: string, value: Option<string>): seq<Attribute> {
    if value.Some? then [Attribute(key, value.value)] else []
  }

  function TxAttributes(m: Message, txIndex: uint64): seq<Attribute> {
    [Attribute(AMOUNT, m.amount), Attribute(ETHEREUM_TX_HASH, HashHex(m.hash)),
     Attribute(TX_INDEX, FormatUint(txIndex)), Attribute(TX_GAS_USED, FormatUint(m.gasUsed))]
    + Optional(TX_HASH, m.tendermintHash)
    + Optional(RECIPIENT, m.recipient)
    + Optional(ETHEREUM_TX_FAILED, if m.vmError != "" then Some(m.vmError) else None)
  }

  function LogAttributes(logs: seq<string>): (attrs: seq<Attribute>)
    ensures |attrs| == |logs| && forall i :: 0 <= i < |logs| ==> attrs[i] == Attribute(TX_LOG_ATTRIBUTE, logs[i])
  {
    if logs == [] then [] else LogAttributes(logs[..|logs| - 1]) + [Attribute(TX_LOG_ATTRIBUTE, logs[|logs| - 1])]
  }

  /** The events of the message server for one executed message, apart from its `message` event. */
  function MessageEvents(m: Message, txIndex: uint64): seq<Event> {
    [Event(ETHEREUM_TX, TxAttributes(m, txIndex)), Event(TX_LOG, LogAttributes(m.logs))]
  }

  function IndexOf(start: uint64, i: nat): uint64 {
    (start + i) % U64
  }

  /** The first part: one event for each message, with consecutive transaction indices. */
  function AnteEvents(start: uint64, msgs: seq<Message>): (events: seq<Event>)
    ensures |events| == |msgs| && forall i :: 0 <= i < |msgs| ==> events[i] == AnteEvent(msgs[i].hash, IndexOf(start, i))
  {
    if msgs == [] then []
    else
      var last := |msgs| - 1;
      AnteEvents(start, msgs[..last]) + [AnteEvent(msgs[last].hash, IndexOf(start, last))]
  }

  /** The second part, for the messages that were executed. */
  function ServerEvents(start: uint64, msgs: seq<Message>): seq<Event> {
    if msgs == [] then []
    else
      var last := |msgs| - 1;
      ServerEvents(start, msgs[..last]) + MessageEvents(msgs[last], IndexOf(start, last))
  }

  // ---- parsing ----

  datatype ParsedTx = ParsedTx(
    msgIndex: nat, hash: Hash, ethTxIndex: int, gasUsed: uint64, failed: bool, rawLogs: seq<string>)

  datatype Format = Unknown | Format1 | Format2

  /** The parser between two events: what it found and where it is. */
  datatype Progress = Progress(format: Format, eventIndex: int, txs: seq<ParsedTx>, hashes: map<Hash, nat>)

  datatype Outcome<+T> = Parsed(value: T) | Malformed | Crash

  const BEGIN := Progress(Unknown, -1, [], map[])

  function NewTx(msgIndex: nat): ParsedTx {
    ParsedTx(msgIndex, ZERO_HASH, -1, 0, false, [])
  }

  function FillAttribute(tx: ParsedTx, attr: Attribute): Option<ParsedTx> {
    if attr.key == ETHEREUM_TX_HASH then Some(tx.(hash := HexToHash(attr.value)))
    else if attr.key == TX_INDEX then
      var n := ParseInt(attr.value);
      if n.Some? then Some(tx.(ethTxIndex := n.value)) else None
    else if attr.key == TX_GAS_USED then
      var n := ParseInt(attr.value);
      if n.Some? then Some(tx.(gasUsed := n.value % U64)) else None
    else if attr.key == ETHEREUM_TX_FAILED then Some(tx.(failed := attr.value != ""))
    else Some(tx)
  }

  function Fill(tx: ParsedTx, attrs: seq<Attribute>): Option<ParsedTx> {
    if attrs == [] then Some(tx)
    else
      var front := Fill(tx, attrs[..|attrs| - 1]);
      if front.Some? then FillAttribute(front.value, attrs[|attrs| - 1]) else None
  }

  function RawLogs(attrs: seq<Attribute>): (logs: seq<string>)
    ensures |logs| == |attrs| && forall i :: 0 <= i < |attrs| ==> logs[i] == attrs[i].value
  {
    if attrs == [] then [] else RawLogs(attrs[..|attrs| - 1]) + [attrs[|attrs| - 1].value]
  }

  /** `newTx`: the attributes describe a message not seen before. */
  function Announce(p: Progress, attrs: seq<Attribute>): Outcome<Progress> {
    var tx := Fill(NewTx(|p.txs|), attrs);
    if tx.Some? then Parsed(p.(txs := p.txs + [tx.value], hashes := p.hashes[tx.value.hash := |p.txs|]))
    else Malformed
  }

  /** `updateTx`: the attributes belong to the message that `eventIndex` points at. */
  function Amend(p: Progress, attrs: seq<Attribute>): Outcome<Progress> {
    if !(0 <= p.eventIndex < |p.txs|) then Crash
    else
      var tx := Fill(p.txs[p.eventIndex], attrs);
      if tx.Some? then Parsed(p.(txs := p.txs[p.eventIndex := tx.value])) else Malformed
  }

  function Consume(p: Progress, event: Event): Outcome<Progress> {
    if event.kind == ETHEREUM_TX then
      var format :=
        if p.format != Unknown then p.format else if |event.attrs| > 2 then Format1 else Format2;
      var p1 := p.(format := format);
      if |event.attrs| == 2 then Announce(p1, event.attrs)
      else
        var p2 := p1.(eventIndex := p.eventIndex + 1);
        if format == Format1 then Announce(p2, event.attrs) else Amend(p2, event.attrs)
    else if event.kind == TX_LOG then
      if !(0 <= p.eventIndex < |p.txs|) then Crash
      else Parsed(p.(txs := p.txs[p.eventIndex := p.txs[p.eventIndex].(rawLogs := RawLogs(event.attrs))]))
    else Parsed(p)
  }

  function ConsumeAll(p: Progress, events: seq<Event>): Outcome<Progress> {
    if events == [] then Parsed(p)
    else
      var front := ConsumeAll(p, events[..|events| - 1]);
      if front.Parsed? then Consume(front.value, events[|events| - 1]) else front
  }

  /** The gas of a lone message is taken from the transaction's result, an int64. */
  function Patch(txs: seq<ParsedTx>, gasUsed: int): seq<ParsedTx> {
    if |txs| == 1 then [txs[0].(gasUsed := gasUsed % U64)] else txs
  }

  // ---- each printer's attributes are read back ----

  lemma {:induction false} FillConcat(tx: ParsedTx, a: seq<Attribute>, b: seq<Attribute>)
    ensures Fill(tx, a + b) == if Fill(tx, a).Some? then Fill(Fill(tx, a).value, b) else None
    decreases |b|
  {
    if b == [] {
      assert a + b == a;
    } else {
      var last := |b| - 1;
      FillConcat(tx, a, b[..last]);
      assert (a + b)[..|a + b| - 1] == a + b[..last];
    }
  }

  lemma FillOne(tx: ParsedTx, attr: Attribute)
    ensures Fill(tx, [attr]) == FillAttribute(tx, attr)
  {
    assert [attr][..0] == [];
    assert Fill(tx, []) == Some(tx);
  }

  lemma FillHash(tx: ParsedTx, hash: Hash)
    ensures FillAttribute(tx, Attribute(ETHEREUM_TX_HASH, HashHex(hash))) == Some(tx.(hash := hash))
  {
    HexToHashOfHex(hash);
  }

  lemma FillIndex(tx: ParsedTx, txIndex: uint64)
    ensures FillAttribute(tx, Attribute(TX_INDEX, FormatUint(txIndex)))
         == if txIndex < I64 then Some(tx.(ethTxIndex := txIndex)) else None
  {
    hide ParseInt, FormatUint;
    ParseOfFormat(txIndex);
  }

  lemma FillGas(tx: ParsedTx, gasUsed: uint64)
    ensures FillAttribute(tx, Attribute(TX_GAS_USED, FormatUint(gasUsed)))
         == if gasUsed < I64 then Some(tx.(gasUsed := gasUsed)) else None
  {
    hide ParseInt, FormatUint;
    ParseOfFormat(gasUsed);
  }

  lemma FillAnte(tx: ParsedTx, hash: Hash, txIndex: uint64)
    ensures Fill(tx, AnteEvent(hash, txIndex).attrs)
         == if txIndex < I64 then Some(tx.(hash := hash, ethTxIndex := txIndex)) else None
  {
    var first, second := Attribute(ETHEREUM_TX_HASH, HashHex(hash)), Attribute(TX_INDEX, FormatUint(txIndex));
    FillConcat(tx, [first], [second]);
    FillOne(tx, first);
    FillHash(tx, hash);
    FillOne(tx.(hash := hash), second);
    FillIndex(tx.(hash := hash), txIndex);
    assert AnteEvent(hash, txIndex).attrs == [first] + [second];
  }

  lemma FillOptional(tx: ParsedTx, key: string, value: Option<string>)
    ensures Fill(tx, Optional(key, value)) == if value.Some? then FillAttribute(tx, Attribute(key, value.value)) else Some(tx)
  {
    if value.Some? {
      FillOne(tx, Attribute(key, value.value));
    }
  }

  lemma FillBasics(tx: ParsedTx, m: Message, txIndex: uint64)
    ensures Fill(tx, TxAttributes(m, txIndex)[..4])
         == if txIndex < I64 && m.gasUsed < I64 then Some(tx.(hash := m.hash, ethTxIndex := txIndex, gasUsed := m.gasUsed))
            else None
  {
    var amount, gas := Attribute(AMOUNT, m.amount), Attribute(TX_GAS_USED, FormatUint(m.gasUsed));
    var middle := AnteEvent(m.hash, txIndex).attrs;
    assert TxAttributes(m, txIndex)[..4] == ([amount] + middle) + [gas];
    FillConcat(tx, [amount] + middle, [gas]);
    FillConcat(tx, [amount], middle);
    FillOne(tx, amount);
    FillAnte(tx, m.hash, txIndex);
    var tx' := tx.(hash := m.hash, ethTxIndex := txIndex);
    FillOne(tx', gas);
    FillGas(tx', m.gasUsed);
  }

  /** What a report says about its message, whatever optional attributes it carries. */
  function Report(tx: ParsedTx, m: Message, txIndex: uint64): ParsedTx {
    tx.(hash := m.hash, ethTxIndex := txIndex, gasUsed := m.gasUsed, failed := m.vmError != "" || tx.failed)
  }

  lemma FillReport(tx: ParsedTx, m: Message, txIndex: uint64)
    ensures Fill(tx, TxAttributes(m, txIndex))
         == if txIndex < I64 && m.gasUsed < I64 then Some(Report(tx, m, txIndex)) else None
  {
    var attrs := TxAttributes(m, txIndex);
    var hash, recipient := Optional(TX_HASH, m.tendermintHash), Optional(RECIPIENT, m.recipient);
    var error := if m.vmError != "" then Some(m.vmError) else None;
    var failed := Optional(ETHEREUM_TX_FAILED, error);
    assert attrs == ((attrs[..4] + hash) + recipient) + failed;
    FillBasics(tx, m, txIndex);
    FillConcat(tx, (attrs[..4] + hash) + recipient, failed);
    FillConcat(tx, attrs[..4] + hash, recipient);
    FillConcat(tx, attrs[..4], hash);
    if txIndex < I64 && m.gasUsed < I64 {
      var tx' := tx.(hash := m.hash, ethTxIndex := txIndex, gasUsed := m.gasUsed);
      FillOptional(tx', TX_HASH, m.tendermintHash);
      FillOptional(tx', RECIPIENT, m.recipient);
      FillOptional(tx', ETHEREUM_TX_FAILED, error);
    }
  }

  lemma {:induction false} RawLogsOfPrinted(logs: seq<string>)
    ensures RawLogs(LogAttributes(logs)) == logs
  {
    if logs != [] {
      var last := |logs| - 1;
      RawLogsOfPrinted(logs[..last]);
      var attrs := LogAttributes(logs);
      assert attrs[..|attrs| - 1] == LogAttributes(logs[..last]);
    }
  }

  /** What single attributes say, whatever their text: unknown keys nothing, the failure flag whether there is text. */
  lemma AttributeLaw(tx: ParsedTx, key: string, value: string, n: nat)
    ensures Fill(tx, [Attribute("ethereumTxFailed", value)]) == Some(tx.(failed := |value| > 0))
    ensures Fill(tx, [Attribute("ethereumTxHash", value)]) == Some(tx.(hash := HexToHash(value)))
    ensures key !in {"ethereumTxHash", "txIndex", "txGasUsed", "ethereumTxFailed"} ==> Fill(tx, [Attribute(key, value)]) == Some(tx)
    ensures 0 < n <= I64 ==> Fill(tx, [Attribute("txGasUsed", "-" + FormatUint(n))]) == Some(tx.(gasUsed := U64 - n))
    ensures 0 < n <= I64 ==> Fill(tx, [Attribute("txIndex", "-" + FormatUint(n))]) == Some(tx.(ethTxIndex := -(n as int)))
  {
    hide ParseInt, FormatUint, HexToHash, Fill;
    ParseOfSigned(n);
    FillOne(tx, Attribute("ethereumTxFailed", value));
    FillOne(tx, Attribute("ethereumTxHash", value));
    FillOne(tx, Attribute(key, value));
    FillOne(tx, Attribute("txGasUsed", "-" + FormatUint(n)));
    FillOne(tx, Attribute("txIndex", "-" + FormatUint(n)));
  }
}
