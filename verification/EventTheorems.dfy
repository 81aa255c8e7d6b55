/** Parsing undoes printing, for both event formats. */
module EventTheorems {
  import opened EvmTypes
  import opened Events
  import opened Text

  /** What the result of parsing holds: one entry for each message, and the entry of each hash. */
  datatype Found = Found(txs: seq<ParsedTx>, hashes: map<Hash, nat>)

  /** The whole of `ParseTxResult`. */
  function Parse(events: seq<Event>, gasUsed: int): Outcome<Found> {
    match ConsumeAll(BEGIN, events)
    case Parsed(p) => Parsed(Found(Patch(p.txs, gasUsed), p.hashes))
    case Malformed => Malformed
    case Crash => Crash
  }

  /** The events the parser looks at. */
  function Relevant(events: seq<Event>): seq<Event> {
    if events == [] then []
    else
      var last := |events| - 1;
      Relevant(events[..last]) + if events[last].kind == ETHEREUM_TX || events[last].kind == TX_LOG then [events[last]] else []
  }

  /** What should be found about the i-th message when the first `executed` messages were executed. */
  function Line(start: uint64, msgs: seq<Message>, executed: nat, i: nat): ParsedTx
    requires i < |msgs|
  {
    var m := msgs[i];
    if i < executed then ParsedTx(i, m.hash, IndexOf(start, i), m.gasUsed, m.vmError != "", m.logs)
    else ParsedTx(i, m.hash, IndexOf(start, i), 0, false, [])
  }

  function Lines(start: uint64, msgs: seq<Message>, executed: nat, n: nat): (lines: seq<ParsedTx>)
    requires n <= |msgs|
    ensures |lines| == n && forall i :: 0 <= i < n ==> lines[i] == Line(start, msgs, executed, i)
  {
    if n == 0 then [] else Lines(start, msgs, executed, n - 1) + [Line(start, msgs, executed, n - 1)]
  }

  /** The last message with each hash. */
  function LastWithHash(msgs: seq<Message>): map<Hash, nat> {
    if msgs == [] then map[] else LastWithHash(msgs[..|msgs| - 1])[msgs[|msgs| - 1].hash := |msgs| - 1]
  }

  /** Every transaction index is below 2^63, the bound of the integers the parser reads. */
  ghost predicate IndicesFit(start: uint64, msgs: seq<Message>) {
    forall i :: 0 <= i < |msgs| ==> IndexOf(start, i) < I64
  }

  ghost predicate GasFits(msgs: seq<Message>) {
    forall i :: 0 <= i < |msgs| ==> msgs[i].gasUsed < I64
  }

  // ---- streams ----

  lemma {:induction false} ConsumeConcat(p: Progress, a: seq<Event>, b: seq<Event>)
    ensures ConsumeAll(p, a + b) == if ConsumeAll(p, a).Parsed? then ConsumeAll(ConsumeAll(p, a).value, b) else ConsumeAll(p, a)
    decreases |b|
  {
    hide Consume;
    if b == [] {
      assert a + b == a;
    } else {
      var last := |b| - 1;
      ConsumeConcat(p, a, b[..last]);
      assert (a + b)[..|a + b| - 1] == a + b[..last];
    }
  }

  lemma ConsumeOne(p: Progress, event: Event)
    ensures ConsumeAll(p, [event]) == Consume(p, event)
  {
    hide Consume;
    assert [event][..0] == [];
    assert ConsumeAll(p, []) == Parsed(p);
  }

  /** Events of other types make no difference, wherever they stand. */
  lemma {:induction false} OthersIgnored(p: Progress, events: seq<Event>)
    ensures ConsumeAll(p, events) == ConsumeAll(p, Relevant(events))
  {
    if events != [] {
      var last := |events| - 1;
      var e, front := events[last], Relevant(events[..last]);
      OthersIgnored(p, events[..last]);
      if e.kind == ETHEREUM_TX || e.kind == TX_LOG {
        ConsumeConcat(p, front, [e]);
        if ConsumeAll(p, front).Parsed? {
          ConsumeOne(ConsumeAll(p, front).value, e);
        }
      } else {
        assert Relevant(events) == front;
      }
    }
  }

  // ---- the first part ----

  function AfterAnte(start: uint64, msgs: seq<Message>): Progress {
    Progress(if msgs == [] then Unknown else Format2, -1, Lines(start, msgs, 0, |msgs|), LastWithHash(msgs))
  }

  lemma LinesPrefix(start: uint64, msgs: seq<Message>, executed: nat, n: nat)
    requires n <= |msgs| && executed <= n
    ensures Lines(start, msgs[..n], executed, n) == Lines(start, msgs, executed, n)
  {
  }

  lemma AnteStep(start: uint64, msgs: seq<Message>, n: nat)
    requires n < |msgs|
    ensures Consume(AfterAnte(start, msgs[..n]), AnteEvent(msgs[n].hash, IndexOf(start, n)))
         == if IndexOf(start, n) < I64 then Parsed(AfterAnte(start, msgs[..n + 1])) else Malformed
  {
    hide Fill;
    FillAnte(NewTx(n), msgs[n].hash, IndexOf(start, n));
    LinesPrefix(start, msgs[..n + 1], 0, n);
    assert msgs[..n + 1][..n] == msgs[..n];
  }

  lemma {:induction false} AnteParsed(start: uint64, msgs: seq<Message>)
    ensures ConsumeAll(BEGIN, AnteEvents(start, msgs))
         == if IndicesFit(start, msgs) then Parsed(AfterAnte(start, msgs)) else Malformed
  {
    hide Consume, AnteEvent;
    if msgs != [] {
      var last := |msgs| - 1;
      AnteParsed(start, msgs[..last]);
      var events := AnteEvents(start, msgs);
      assert events[..|events| - 1] == AnteEvents(start, msgs[..last]);
      AnteStep(start, msgs, last);
      assert msgs[..last + 1] == msgs;
      assert IndicesFit(start, msgs) <==> IndicesFit(start, msgs[..last]) && IndexOf(start, last) < I64;
    }
  }

  // ---- the second part ----

  function AfterServer(start: uint64, msgs: seq<Message>, executed: nat): Progress
    requires executed <= |msgs|
  {
    Progress(if msgs == [] then Unknown else Format2, executed - 1, Lines(start, msgs, executed, |msgs|), LastWithHash(msgs))
  }

  lemma ServerStep(start: uint64, msgs: seq<Message>, n: nat)
    requires n < |msgs| && IndexOf(start, n) < I64
    ensures ConsumeAll(AfterServer(start, msgs, n), MessageEvents(msgs[n], IndexOf(start, n)))
         == if msgs[n].gasUsed < I64 then Parsed(AfterServer(start, msgs, n + 1)) else Malformed
  {
    hide Fill, TxAttributes, LogAttributes, RawLogs;
    var p, m, index := AfterServer(start, msgs, n), msgs[n], IndexOf(start, n);
    var report, logs := Event(ETHEREUM_TX, TxAttributes(m, index)), Event(TX_LOG, LogAttributes(m.logs));
    assert MessageEvents(m, index) == [report] + [logs];
    ConsumeConcat(p, [report], [logs]);
    ConsumeOne(p, report);
    FillReport(p.txs[n], m, index);
    ManyAttributes(m, index);
    RawLogsOfPrinted(m.logs);
    if m.gasUsed < I64 {
      var p' := Consume(p, report).value;
      ConsumeOne(p', logs);
      assert Consume(p', logs).value.txs == Lines(start, msgs, n + 1, |msgs|);
    }
  }

  lemma ManyAttributes(m: Message, txIndex: uint64)
    ensures |TxAttributes(m, txIndex)| > 2
  {
  }

  lemma {:induction false} ServerParsed(start: uint64, msgs: seq<Message>, executed: nat)
    requires IndicesFit(start, msgs) && executed <= |msgs|
    ensures ConsumeAll(AfterAnte(start, msgs), ServerEvents(start, msgs[..executed]))
         == if GasFits(msgs[..executed]) then Parsed(AfterServer(start, msgs, executed)) else Malformed
  {
    hide Consume, MessageEvents;
    var p := AfterAnte(start, msgs);
    if executed > 0 {
      var last := executed - 1;
      ServerParsed(start, msgs, last);
      assert msgs[..executed][..last] == msgs[..last];
      ConsumeConcat(p, ServerEvents(start, msgs[..last]), MessageEvents(msgs[last], IndexOf(start, last)));
      ServerStep(start, msgs, last);
      assert GasFits(msgs[..executed]) <==> GasFits(msgs[..last]) && msgs[last].gasUsed < I64;
    }
  }

  // ---- the round trip ----

  lemma ParsePrinted(start: uint64, msgs: seq<Message>, executed: nat, events: seq<Event>, gasUsed: int)
    requires executed <= |msgs|
    requires Relevant(events) == AnteEvents(start, msgs) + ServerEvents(start, msgs[..executed])
    ensures Parse(events, gasUsed)
         == if IndicesFit(start, msgs) && GasFits(msgs[..executed])
            then Parsed(Found(Patch(Lines(start, msgs, executed, |msgs|), gasUsed), LastWithHash(msgs)))
            else Malformed
  {
    hide Consume;
    OthersIgnored(BEGIN, events);
    ConsumeConcat(BEGIN, AnteEvents(start, msgs), ServerEvents(start, msgs[..executed]));
    AnteParsed(start, msgs);
    if IndicesFit(start, msgs) {
      ServerParsed(start, msgs, executed);
    }
  }

  /** What must be found about the i-th message; a lone message takes its gas from the transaction's result. */
  function Expected(start: uint64, msgs: seq<Message>, executed: nat, gasUsed: int, i: nat): ParsedTx
    requires i < |msgs|
  {
    var m := msgs[i];
    ParsedTx(i, m.hash, start + i,
             if |msgs| == 1 then gasUsed % U64 else if i < executed then m.gasUsed else 0,
             i < executed && m.vmError != "",
             if i < executed then m.logs else [])
  }

  ghost predicate AllExpected(start: uint64, msgs: seq<Message>, executed: nat, gasUsed: int, txs: seq<ParsedTx>) {
    |txs| == |msgs| && forall i :: 0 <= i < |msgs| ==> txs[i] == Expected(start, msgs, executed, gasUsed, i)
  }

  /** All indices fit exactly when they end by 2^63, and then they are consecutive numbers. */
  lemma IndicesFitIff(start: uint64, msgs: seq<Message>)
    ensures IndicesFit(start, msgs) <==> msgs == [] || start + |msgs| <= I64
    ensures IndicesFit(start, msgs) ==> forall i :: 0 <= i < |msgs| ==> IndexOf(start, i) == start + i
  {
    if IndicesFit(start, msgs) && msgs != [] {
      assert IndexOf(start, 0) < I64;
      LastFits(start, msgs);
    }
  }

  lemma LastFits(start: uint64, msgs: seq<Message>)
    requires IndicesFit(start, msgs) && start < I64
    ensures start + |msgs| <= I64
  {
    var i := I64 - start;
    assert IndexOf(start, i) == I64;
  }

  lemma LinesAreExpected(start: uint64, msgs: seq<Message>, executed: nat, gasUsed: int)
    requires IndicesFit(start, msgs)
    ensures var txs := Patch(Lines(start, msgs, executed, |msgs|), gasUsed);
            |txs| == |msgs| && forall i :: 0 <= i < |msgs| ==> txs[i] == Expected(start, msgs, executed, gasUsed, i)
  {
    IndicesFitIff(start, msgs);
  }

  /** The stream was printed for these messages, of which the first `executed` were executed, among events of other types. */
  ghost predicate Printed(start: uint64, msgs: seq<Message>, executed: nat, events: seq<Event>) {
    executed <= |msgs| && Relevant(events) == AnteEvents(start, msgs) + ServerEvents(start, msgs[..executed])
  }

  /** Everything that is printed can be read back. */
  ghost predicate Readable(start: uint64, msgs: seq<Message>, executed: nat)
    requires executed <= |msgs|
  {
    && (msgs == [] || start + |msgs| <= I64)
    && forall i :: 0 <= i < executed ==> msgs[i].gasUsed < I64
  }

  /**
   * Parsing undoes printing. Take any event stream that holds, among events of other types, the announcements
   * of all messages and then the reports of those that were executed. Parsing it succeeds exactly when every
   * index and every reported gas is below 2^63, and then recovers every message; a lone message takes its gas
   * from the transaction's result.
   */
  lemma ParseOfPrinted(start: uint64, msgs: seq<Message>, executed: nat, events: seq<Event>, gasUsed: int)
    requires Printed(start, msgs, executed, events)
    ensures !Readable(start, msgs, executed) ==> Parse(events, gasUsed) == Malformed
    ensures Readable(start, msgs, executed) ==>
              && Parse(events, gasUsed).Parsed?
              && AllExpected(start, msgs, executed, gasUsed, Parse(events, gasUsed).value.txs)
              && Parse(events, gasUsed).value.hashes == LastWithHash(msgs)
  {
    hide Parse, ConsumeAll, Relevant, AnteEvents, ServerEvents, LastWithHash, Lines, Patch, Expected, IndicesFit, GasFits;
    ParsePrinted(start, msgs, executed, events, gasUsed);
    IndicesFitIff(start, msgs);
    GasFitsIff(msgs, executed);
    if Readable(start, msgs, executed) {
      LinesAreExpected(start, msgs, executed, gasUsed);
    }
  }

  lemma GasFitsIff(msgs: seq<Message>, executed: nat)
    requires executed <= |msgs|
    ensures GasFits(msgs[..executed]) <==> forall i :: 0 <= i < executed ==> msgs[i].gasUsed < I64
  {
    if GasFits(msgs[..executed]) {
      forall i | 0 <= i < executed ensures msgs[i].gasUsed < I64 {
        assert msgs[..executed][i] == msgs[i];
      }
    }
  }

  // ---- the older format ----

  function AfterOld(start: uint64, msgs: seq<Message>): Progress {
    Progress(if msgs == [] then Unknown else Format1, |msgs| - 1, Lines(start, msgs, |msgs|, |msgs|), LastWithHash(msgs))
  }

  lemma OldStep(start: uint64, msgs: seq<Message>, n: nat)
    requires n < |msgs|
    ensures ConsumeAll(AfterOld(start, msgs[..n]), MessageEvents(msgs[n], IndexOf(start, n)))
         == if IndexOf(start, n) < I64 && msgs[n].gasUsed < I64 then Parsed(AfterOld(start, msgs[..n + 1])) else Malformed
  {
    hide Fill, TxAttributes, LogAttributes, RawLogs;
    var p, m, index := AfterOld(start, msgs[..n]), msgs[n], IndexOf(start, n);
    var report, logs := Event(ETHEREUM_TX, TxAttributes(m, index)), Event(TX_LOG, LogAttributes(m.logs));
    assert MessageEvents(m, index) == [report] + [logs];
    ConsumeConcat(p, [report], [logs]);
    ConsumeOne(p, report);
    FillReport(NewTx(n), m, index);
    ManyAttributes(m, index);
    RawLogsOfPrinted(m.logs);
    if index < I64 && m.gasUsed < I64 {
      var p' := Consume(p, report).value;
      ConsumeOne(p', logs);
      assert msgs[..n + 1][..n] == msgs[..n];
      assert Consume(p', logs).value.txs == Lines(start, msgs[..n + 1], n + 1, n + 1);
    }
  }

  lemma {:induction false} OldParsed(start: uint64, msgs: seq<Message>)
    ensures ConsumeAll(BEGIN, ServerEvents(start, msgs))
         == if IndicesFit(start, msgs) && GasFits(msgs) then Parsed(AfterOld(start, msgs)) else Malformed
  {
    hide Consume, MessageEvents;
    if msgs != [] {
      var last := |msgs| - 1;
      OldParsed(start, msgs[..last]);
      ConsumeConcat(BEGIN, ServerEvents(start, msgs[..last]), MessageEvents(msgs[last], IndexOf(start, last)));
      OldStep(start, msgs, last);
      assert msgs[..last + 1] == msgs;
      assert IndicesFit(start, msgs) <==> IndicesFit(start, msgs[..last]) && IndexOf(start, last) < I64;
      assert GasFits(msgs) <==> GasFits(msgs[..last]) && msgs[last].gasUsed < I64;
    }
  }

  /** Streams of the older format, with reports only, give the same result as streams with both parts. */
  lemma FormatsAgree(start: uint64, msgs: seq<Message>, old1: seq<Event>, new2: seq<Event>, gasUsed: int)
    requires Relevant(old1) == ServerEvents(start, msgs)
    requires Relevant(new2) == AnteEvents(start, msgs) + ServerEvents(start, msgs)
    ensures Parse(old1, gasUsed) == Parse(new2, gasUsed)
  {
    hide ConsumeAll;
    OthersIgnored(BEGIN, old1);
    OldParsed(start, msgs);
    assert msgs[..|msgs|] == msgs;
    ParsePrinted(start, msgs, |msgs|, new2, gasUsed);
  }

  // ---- the oldest streams, which lack indices and gas ----

  /** A report from before indices and gas were printed. */
  function OldestAttributes(m: Message): seq<Attribute> {
    [Attribute(AMOUNT, m.amount), Attribute(ETHEREUM_TX_HASH, HashHex(m.hash))]
    + Optional(TX_HASH, m.tendermintHash)
    + Optional(RECIPIENT, m.recipient)
    + Optional(ETHEREUM_TX_FAILED, if m.vmError != "" then Some(m.vmError) else None)
  }

  function OldestEvents(msgs: seq<Message>): seq<Event> {
    if msgs == [] then []
    else
      var m := msgs[|msgs| - 1];
      OldestEvents(msgs[..|msgs| - 1]) + [Event(ETHEREUM_TX, OldestAttributes(m)), Event(TX_LOG, LogAttributes(m.logs))]
  }

  /** Without an index and gas, the message still has its hash, failure and logs; the index says it is unknown. */
  function OldestLine(m: Message, i: nat): ParsedTx {
    ParsedTx(i, m.hash, -1, 0, m.vmError != "", m.logs)
  }

  function OldestLines(msgs: seq<Message>): (lines: seq<ParsedTx>)
    ensures |lines| == |msgs| && forall i :: 0 <= i < |msgs| ==> lines[i] == OldestLine(msgs[i], i)
  {
    if msgs == [] then [] else OldestLines(msgs[..|msgs| - 1]) + [OldestLine(msgs[|msgs| - 1], |msgs| - 1)]
  }

  lemma FillOldest(tx: ParsedTx, m: Message)
    ensures Fill(tx, OldestAttributes(m)) == Some(tx.(hash := m.hash, failed := m.vmError != "" || tx.failed))
  {
    var amount, hash := Attribute(AMOUNT, m.amount), Attribute(ETHEREUM_TX_HASH, HashHex(m.hash));
    var tm, recipient := Optional(TX_HASH, m.tendermintHash), Optional(RECIPIENT, m.recipient);
    var error := if m.vmError != "" then Some(m.vmError) else None;
    var failed := Optional(ETHEREUM_TX_FAILED, error);
    assert OldestAttributes(m) == ((([amount] + [hash]) + tm) + recipient) + failed;
    FillConcat(tx, (([amount] + [hash]) + tm) + recipient, failed);
    FillConcat(tx, ([amount] + [hash]) + tm, recipient);
    FillConcat(tx, [amount] + [hash], tm);
    FillConcat(tx, [amount], [hash]);
    FillOne(tx, amount);
    FillOne(tx, hash);
    FillHash(tx, m.hash);
    var tx' := tx.(hash := m.hash);
    FillOptional(tx', TX_HASH, m.tendermintHash);
    FillOptional(tx', RECIPIENT, m.recipient);
    FillOptional(tx', ETHEREUM_TX_FAILED, error);
  }

  lemma ManyOldest(m: Message)
    requires m.tendermintHash.Some?
    ensures |OldestAttributes(m)| > 2
  {
  }

  function AfterOldest(msgs: seq<Message>): Progress {
    Progress(if msgs == [] then Unknown else Format1, |msgs| - 1, OldestLines(msgs), LastWithHash(msgs))
  }

  lemma OldestStep(msgs: seq<Message>, n: nat)
    requires n < |msgs| && msgs[n].tendermintHash.Some?
    ensures var report, logs := Event(ETHEREUM_TX, OldestAttributes(msgs[n])), Event(TX_LOG, LogAttributes(msgs[n].logs));
            ConsumeAll(AfterOldest(msgs[..n]), [report, logs]) == Parsed(AfterOldest(msgs[..n + 1]))
  {
    hide Fill, OldestAttributes, LogAttributes, RawLogs;
    var p, m := AfterOldest(msgs[..n]), msgs[n];
    var report, logs := Event(ETHEREUM_TX, OldestAttributes(m)), Event(TX_LOG, LogAttributes(m.logs));
    ManyOldest(m);
    assert [report, logs] == [report] + [logs];
    ConsumeConcat(p, [report], [logs]);
    ConsumeOne(p, report);
    FillOldest(NewTx(n), m);
    RawLogsOfPrinted(m.logs);
    var p' := Consume(p, report).value;
    ConsumeOne(p', logs);
    assert msgs[..n + 1][..n] == msgs[..n];
    assert Consume(p', logs).value.txs == OldestLines(msgs[..n + 1]);
  }

  lemma {:induction false} OldestParsed(msgs: seq<Message>)
    requires forall i :: 0 <= i < |msgs| ==> msgs[i].tendermintHash.Some?
    ensures ConsumeAll(BEGIN, OldestEvents(msgs)) == Parsed(AfterOldest(msgs))
  {
    hide Consume, OldestAttributes, LogAttributes;
    if msgs != [] {
      var last := |msgs| - 1;
      var m := msgs[last];
      OldestParsed(msgs[..last]);
      ConsumeConcat(BEGIN, OldestEvents(msgs[..last]), [Event(ETHEREUM_TX, OldestAttributes(m)), Event(TX_LOG, LogAttributes(m.logs))]);
      OldestStep(msgs, last);
      assert msgs[..last + 1] == msgs;
    }
  }

  /**
   * Streams that lack indices and gas are read for what they have; the gas of a lone message is filled in from the
   * transaction's result. Reports of delivered transactions carry the transaction's own hash.
   */
  lemma ParseOfOldest(msgs: seq<Message>, events: seq<Event>, gasUsed: int)
    requires Relevant(events) == OldestEvents(msgs)
    requires forall i :: 0 <= i < |msgs| ==> msgs[i].tendermintHash.Some?
    ensures Parse(events, gasUsed).Parsed? && |Parse(events, gasUsed).value.txs| == |msgs|
    ensures forall i :: 0 <= i < |msgs| ==>
              Parse(events, gasUsed).value.txs[i]
              == ParsedTx(i, msgs[i].hash, -1, if |msgs| == 1 then gasUsed % U64 else 0, msgs[i].vmError != "", msgs[i].logs)
  {
    hide ConsumeAll, OldestEvents;
    OthersIgnored(BEGIN, events);
    OldestParsed(msgs);
  }

  // ---- what is printed, and streams that are not ----

  /** The attributes of announcement and report: which are always there, and which only when there is something to say. */
  lemma ReportLaw(m: Message, txIndex: uint64, x: string)
    ensures AnteEvent(m.hash, txIndex)
         == Event("ethereum_tx", [Attribute("ethereumTxHash", HashHex(m.hash)), Attribute("txIndex", FormatUint(txIndex))])
    ensures MessageEvents(m, txIndex) == [Event("ethereum_tx", TxAttributes(m, txIndex)), Event("tx_log", LogAttributes(m.logs))]
    ensures var attrs := TxAttributes(m, txIndex);
            && attrs[..4] == [Attribute("amount", m.amount), Attribute("ethereumTxHash", HashHex(m.hash)),
                              Attribute("txIndex", FormatUint(txIndex)), Attribute("txGasUsed", FormatUint(m.gasUsed))]
            && (Attribute("txHash", x) in attrs[4..] <==> m.tendermintHash == Some(x))
            && (Attribute("recipient", x) in attrs[4..] <==> m.recipient == Some(x))
            && (Attribute("ethereumTxFailed", x) in attrs[4..] <==> m.vmError != "" && m.vmError == x)
  {
    hide FormatUint, HashHex, Optional;
    OptionalIs(TX_HASH, m.tendermintHash);
    OptionalIs(RECIPIENT, m.recipient);
    OptionalIs(ETHEREUM_TX_FAILED, if m.vmError != "" then Some(m.vmError) else None);
    KeysDiffer();
    var attrs := TxAttributes(m, txIndex);
    var failed := Optional(ETHEREUM_TX_FAILED, if m.vmError != "" then Some(m.vmError) else None);
    var tail := Optional(TX_HASH, m.tendermintHash) + Optional(RECIPIENT, m.recipient) + failed;
    assert attrs == attrs[..4] + tail;
    assert attrs[4..] == tail;
  }

  lemma OptionalIs(key: string, value: Option<string>)
    ensures forall a :: a in Optional(key, value) <==> value.Some? && a == Attribute(key, value.value)
  {
  }

  lemma KeysDiffer()
    ensures TX_HASH != RECIPIENT && TX_HASH != ETHEREUM_TX_FAILED && RECIPIENT != ETHEREUM_TX_FAILED
  {
    assert TX_HASH[0] == 't' && RECIPIENT[0] == 'r' && ETHEREUM_TX_FAILED[0] == 'e';
  }

  lemma {:induction false} CrashStays(p: Progress, a: seq<Event>, b: seq<Event>)
    requires ConsumeAll(p, a) == Crash
    ensures ConsumeAll(p, a + b) == Crash
  {
    ConsumeConcat(p, a, b);
  }

  /** Logs without a report before them have no message to belong to. */
  lemma LogsFirstCrash(events: seq<Event>, gasUsed: int)
    requires Relevant(events) != [] && Relevant(events)[0].kind == TX_LOG
    ensures Parse(events, gasUsed) == Crash
  {
    hide ConsumeAll;
    var rs := Relevant(events);
    OthersIgnored(BEGIN, events);
    ConsumeOne(BEGIN, rs[0]);
    CrashStays(BEGIN, [rs[0]], rs[1..]);
    assert rs == [rs[0]] + rs[1..];
  }

  /** A report too many has no announcement to belong to. */
  lemma ReportTooManyCrash(start: uint64, msgs: seq<Message>, extra: Message, txIndex: uint64, rest: seq<Event>, events: seq<Event>, gasUsed: int)
    requires msgs != [] && Readable(start, msgs, |msgs|)
    requires Relevant(events) == AnteEvents(start, msgs) + ServerEvents(start, msgs) + [Event(ETHEREUM_TX, TxAttributes(extra, txIndex))] + rest
    ensures Parse(events, gasUsed) == Crash
  {
    hide ConsumeAll, AnteEvents, ServerEvents, TxAttributes, Relevant, Lines, LastWithHash;
    var ante, server, report := AnteEvents(start, msgs), ServerEvents(start, msgs), Event(ETHEREUM_TX, TxAttributes(extra, txIndex));
    OthersIgnored(BEGIN, events);
    AnteParsed(start, msgs);
    IndicesFitIff(start, msgs);
    GasFitsIff(msgs, |msgs|);
    assert msgs[..|msgs|] == msgs;
    ServerParsed(start, msgs, |msgs|);
    ConsumeConcat(BEGIN, ante, server);
    ConsumeConcat(BEGIN, ante + server, [report]);
    ManyAttributes(extra, txIndex);
    var p := AfterServer(start, msgs, |msgs|);
    ConsumeOne(p, report);
    CrashStays(BEGIN, ante + server + [report], rest);
  }

  // ---- lookups ----

  function TxByHash(found: Found, hash: Hash): Option<ParsedTx> {
    if hash in found.hashes && found.hashes[hash] < |found.txs| then Some(found.txs[found.hashes[hash]]) else None
  }

  function TxByMsgIndex(found: Found, i: int): Option<ParsedTx> {
    if 0 <= i < |found.txs| then Some(found.txs[i]) else None
  }

  function TxByTxIndex(found: Found, txIndex: int): Option<ParsedTx> {
    if |found.txs| == 0 then None else TxByMsgIndex(found, txIndex - found.txs[0].ethTxIndex)
  }

  lemma {:induction false} LastWithHashIs(msgs: seq<Message>, hash: Hash)
    ensures hash in LastWithHash(msgs) <==> exists i :: 0 <= i < |msgs| && msgs[i].hash == hash
    ensures hash in LastWithHash(msgs) ==>
      var i := LastWithHash(msgs)[hash];
      i < |msgs| && msgs[i].hash == hash && forall j :: i < j < |msgs| ==> msgs[j].hash != hash
  {
    if msgs != [] {
      var last := |msgs| - 1;
      LastWithHashIs(msgs[..last], hash);
      if msgs[last].hash != hash && hash in LastWithHash(msgs) {
        assert msgs[..last][LastWithHash(msgs)[hash]].hash == hash;
      }
      forall i | 0 <= i < last && msgs[i].hash == hash
        ensures hash in LastWithHash(msgs)
      {
        assert msgs[..last][i].hash == hash;
      }
    }
  }

  /** A hash is found exactly when some message has it, and it finds the last message that has it. */
  lemma FoundByHash(start: uint64, msgs: seq<Message>, executed: nat, events: seq<Event>, gasUsed: int, hash: Hash)
    requires Printed(start, msgs, executed, events) && Readable(start, msgs, executed)
    ensures Parse(events, gasUsed).Parsed?
    ensures var tx := TxByHash(Parse(events, gasUsed).value, hash);
            && (tx.Some? <==> exists i :: 0 <= i < |msgs| && msgs[i].hash == hash)
            && forall i :: 0 <= i < |msgs| && msgs[i].hash == hash && (forall j :: i < j < |msgs| ==> msgs[j].hash != hash)
                 ==> tx == Some(Expected(start, msgs, executed, gasUsed, i))
  {
    hide Parse, Printed, Readable, Expected;
    ParseOfPrinted(start, msgs, executed, events, gasUsed);
    LastWithHashIs(msgs, hash);
    forall i | 0 <= i < |msgs| && msgs[i].hash == hash && (forall j :: i < j < |msgs| ==> msgs[j].hash != hash)
      ensures LastWithHash(msgs)[hash] == i
    {
    }
  }

  /** A transaction index is found exactly when it is one of the messages', and it finds that message. */
  lemma FoundByTxIndex(start: uint64, msgs: seq<Message>, executed: nat, events: seq<Event>, gasUsed: int, txIndex: int)
    requires Printed(start, msgs, executed, events) && Readable(start, msgs, executed)
    ensures Parse(events, gasUsed).Parsed?
    ensures var tx := TxByTxIndex(Parse(events, gasUsed).value, txIndex);
            tx == if start <= txIndex < start + |msgs| then Some(Expected(start, msgs, executed, gasUsed, txIndex - start)) else None
  {
    hide Parse, Printed, Readable;
    ParseOfPrinted(start, msgs, executed, events, gasUsed);
  }
}
