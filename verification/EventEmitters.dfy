/** The two emitters as they run, appending to the event manager of the transaction. */
module EventEmitters {
  import opened EvmTypes
  import opened Text
  import opened Events
  import opened EventTheorems

  const MESSAGE := "message"

  class EventManager {
    var events: seq<Event>

    constructor ()
      ensures events == []
    {
      events := [];
    }

    method EmitEvent(event: Event)
      modifies this
      ensures events == old(events) + [event]
    {
      events := events + [event];
    }
  }

  /** The ante handler's loop: one announcement for each message. */
  method EmitAnteEvents(manager: EventManager, txIndex: uint64, msgs: seq<Message>)
    modifies manager
    ensures manager.events == old(manager.events) + AnteEvents(txIndex, msgs)
  {
    for i := 0 to |msgs|
      invariant manager.events == old(manager.events) + AnteEvents(txIndex, msgs[..i])
    {
      assert msgs[..i + 1][..i] == msgs[..i];
      manager.EmitEvent(AnteEvent(msgs[i].hash, (txIndex + i) % U64));
    }
    assert msgs[..|msgs|] == msgs;
  }

  /** The message server's report of one executed message; `details` are the attributes of its `message` event. */
  method EmitMessageEvents(manager: EventManager, txIndex: uint64, m: Message, details: seq<Attribute>)
    modifies manager
    ensures manager.events == old(manager.events) + MessageEvents(m, txIndex) + [Event(MESSAGE, details)]
  {
    var attrs := [
      Attribute(AMOUNT, m.amount),
      Attribute(ETHEREUM_TX_HASH, HashHex(m.hash)),
      Attribute(TX_INDEX, FormatUint(txIndex)),
      Attribute(TX_GAS_USED, FormatUint(m.gasUsed))];
    if m.tendermintHash.Some? {
      attrs := attrs + [Attribute(TX_HASH, m.tendermintHash.value)];
    }
    if m.recipient.Some? {
      attrs := attrs + [Attribute(RECIPIENT, m.recipient.value)];
    }
    if m.vmError != "" {
      attrs := attrs + [Attribute(ETHEREUM_TX_FAILED, m.vmError)];
    }
    assert attrs == TxAttributes(m, txIndex);
    var logAttrs := [];
    for i := 0 to |m.logs|
      invariant logAttrs == LogAttributes(m.logs[..i])
    {
      assert m.logs[..i + 1][..i] == m.logs[..i];
      logAttrs := logAttrs + [Attribute(TX_LOG_ATTRIBUTE, m.logs[i])];
    }
    assert m.logs[..|m.logs|] == m.logs;
    manager.EmitEvent(Event(ETHEREUM_TX, attrs));
    manager.EmitEvent(Event(TX_LOG, logAttrs));
    manager.EmitEvent(Event(MESSAGE, details));
  }

  /** A transaction whose first `executed` messages are executed prints exactly a stream that parsing undoes. */
  method EmitTransaction(txIndex: uint64, msgs: seq<Message>, executed: nat, details: seq<Attribute>)
    returns (events: seq<Event>)
    requires executed <= |msgs|
    ensures Printed(txIndex, msgs, executed, events)
  {
    hide AnteEvents, ServerEvents, MessageEvents, Relevant, IndexOf;
    var manager := new EventManager();
    EmitAnteEvents(manager, txIndex, msgs);
    AnteIsRelevant(txIndex, msgs);
    assert [] + AnteEvents(txIndex, msgs) == AnteEvents(txIndex, msgs);
    ServerNone(txIndex);
    for i := 0 to executed
      invariant fresh(manager)
      invariant Relevant(manager.events) == AnteEvents(txIndex, msgs) + ServerEvents(txIndex, msgs[..i])
    {
      ghost var before := manager.events;
      EmitMessageEvents(manager, IndexOf(txIndex, i), msgs[i], details);
      ServerPushed(txIndex, msgs, i);
      ReportIsRelevant(before, msgs[i], IndexOf(txIndex, i), details);
    }
    events := manager.events;
  }

  lemma ServerNone(start: uint64)
    ensures ServerEvents(start, []) == []
  {
  }

  lemma ServerPushed(start: uint64, msgs: seq<Message>, i: nat)
    requires i < |msgs|
    ensures ServerEvents(start, msgs[..i + 1]) == ServerEvents(start, msgs[..i]) + MessageEvents(msgs[i], IndexOf(start, i))
  {
    assert msgs[..i + 1][..i] == msgs[..i];
  }

  lemma RelevantPushed(events: seq<Event>, e: Event)
    ensures Relevant(events + [e]) == Relevant(events) + if e.kind == ETHEREUM_TX || e.kind == TX_LOG then [e] else []
  {
    assert (events + [e])[..|events|] == events;
  }

  lemma {:induction false} AnteIsRelevant(start: uint64, msgs: seq<Message>)
    ensures Relevant(AnteEvents(start, msgs)) == AnteEvents(start, msgs)
  {
    if msgs != [] {
      var last := |msgs| - 1;
      AnteIsRelevant(start, msgs[..last]);
      RelevantPushed(AnteEvents(start, msgs[..last]), AnteEvent(msgs[last].hash, IndexOf(start, last)));
    }
  }

  lemma ReportIsRelevant(before: seq<Event>, m: Message, txIndex: uint64, details: seq<Attribute>)
    ensures Relevant(before + MessageEvents(m, txIndex) + [Event(MESSAGE, details)])
         == Relevant(before) + MessageEvents(m, txIndex)
  {
    hide TxAttributes, LogAttributes;
    var report, logs := Event(ETHEREUM_TX, TxAttributes(m, txIndex)), Event(TX_LOG, LogAttributes(m.logs));
    assert before + MessageEvents(m, txIndex) == (before + [report]) + [logs];
    RelevantPushed(before + MessageEvents(m, txIndex), Event(MESSAGE, details));
    RelevantPushed(before + [report], logs);
    RelevantPushed(before, report);
  }
}
