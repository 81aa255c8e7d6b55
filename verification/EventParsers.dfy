/** The parser as it runs: a loop over the events that fills a list of messages and a map of hashes. */
module EventParsers {
  import opened EvmTypes
  import opened Events
  import opened EventTheorems

  datatype Status = Success | Error | Panic

  function StatusOf<T>(outcome: Outcome<T>): Status {
    match outcome
    case Parsed(_) => Success
    case Malformed => Error
    case Crash => Panic
  }

  method FillTxAttributes(tx: ParsedTx, attrs: seq<Attribute>) returns (filled: Option<ParsedTx>)
    ensures filled == Fill(tx, attrs)
  {
    hide FillAttribute;
    filled := Some(tx);
    for i := 0 to |attrs|
      invariant filled == Fill(tx, attrs[..i]) && filled.Some?
    {
      assert attrs[..i + 1][..i] == attrs[..i];
      filled := FillAttribute(filled.value, attrs[i]);
      if filled.None? {
        FillFails(tx, attrs, i + 1);
        return;
      }
    }
    assert attrs[..|attrs|] == attrs;
  }

  lemma {:induction false} FillFails(tx: ParsedTx, attrs: seq<Attribute>, i: nat)
    requires i <= |attrs| && Fill(tx, attrs[..i]).None?
    ensures Fill(tx, attrs).None?
    decreases |attrs| - i
  {
    hide FillAttribute;
    if i == |attrs| {
      assert attrs[..i] == attrs;
    } else {
      assert attrs[..i + 1][..i] == attrs[..i];
      FillFails(tx, attrs, i + 1);
    }
  }

  method ParseRawLogs(attrs: seq<Attribute>) returns (logs: seq<string>)
    ensures logs == RawLogs(attrs)
  {
    logs := [];
    for i := 0 to |attrs|
      invariant logs == RawLogs(attrs[..i])
    {
      assert attrs[..i + 1][..i] == attrs[..i];
      logs := logs + [attrs[i].value];
    }
    assert attrs[..|attrs|] == attrs;
  }

  class ParsedTxs {
    var txs: seq<ParsedTx>
    var txHashes: map<Hash, nat>

    constructor ()
      ensures txs == [] && txHashes == map[]
    {
      txs, txHashes := [], map[];
    }

    ghost function Contents(): Found
      reads this
    {
      Found(txs, txHashes)
    }

    method NewTx(attrs: seq<Attribute>) returns (ok: bool)
      modifies this
      ensures var tx := Fill(Events.NewTx(|old(txs)|), attrs);
              && ok == tx.Some?
              && (ok ==> txs == old(txs) + [tx.value] && txHashes == old(txHashes)[tx.value.hash := |old(txs)|])
    {
      var msgIndex := |txs|;
      var tx := FillTxAttributes(Events.NewTx(msgIndex), attrs);
      if tx.None? {
        return false;
      }
      txs := txs + [tx.value];
      txHashes := txHashes[tx.value.hash := msgIndex];
      ok := true;
    }

    method UpdateTx(eventIndex: nat, attrs: seq<Attribute>) returns (ok: bool)
      requires eventIndex < |txs|
      modifies this`txs
      ensures var tx := Fill(old(txs)[eventIndex], attrs);
              ok == tx.Some? && (ok ==> txs == old(txs)[eventIndex := tx.value])
    {
      var tx := FillTxAttributes(txs[eventIndex], attrs);
      if tx.None? {
        return false;
      }
      txs := txs[eventIndex := tx.value];
      ok := true;
    }

    /** Handles one event; the three outcomes are an error, a panic on a message that is not there, and success. */
    method Handle(format: Format, eventIndex: int, event: Event) returns (status: Status, format': Format, eventIndex': int)
      modifies this
      ensures var outcome := Consume(Progress(format, eventIndex, old(txs), old(txHashes)), event);
              && status == StatusOf(outcome)
              && (status == Success ==> Progress(format', eventIndex', txs, txHashes) == outcome.value)
    {
      hide Fill, RawLogs;
      status, format', eventIndex' := Success, format, eventIndex;
      if event.kind == ETHEREUM_TX {
        if format == Unknown {
          format' := if |event.attrs| > 2 then Format1 else Format2;
        }
        var ok;
        if |event.attrs| == 2 {
          ok := NewTx(event.attrs);
        } else {
          eventIndex' := eventIndex + 1;
          if format' == Format1 {
            ok := NewTx(event.attrs);
          } else {
            if !(0 <= eventIndex' < |txs|) {
              status := Panic;
              return;
            }
            ok := UpdateTx(eventIndex', event.attrs);
          }
        }
        status := if ok then Success else Error;
      } else if event.kind == TX_LOG {
        if !(0 <= eventIndex < |txs|) {
          status := Panic;
          return;
        }
        var logs := ParseRawLogs(event.attrs);
        txs := txs[eventIndex := txs[eventIndex].(rawLogs := logs)];
      }
    }

    /** The entry under a hash, which is the last message announced with it. */
    function GetTxByHash(hash: Hash): (tx: Option<ParsedTx>)
      reads this
      requires InRange(Contents())
      ensures tx == TxByHash(Contents(), hash)
    {
      if hash in txHashes then Some(txs[txHashes[hash]]) else None
    }

    function GetTxByMsgIndex(i: int): (tx: Option<ParsedTx>)
      reads this
      ensures tx == TxByMsgIndex(Contents(), i)
    {
      if i < 0 || i >= |txs| then None else Some(txs[i])
    }

    function GetTxByTxIndex(txIndex: int): (tx: Option<ParsedTx>)
      reads this
      ensures tx == TxByTxIndex(Contents(), txIndex)
    {
      if |txs| == 0 then None else GetTxByMsgIndex(txIndex - txs[0].ethTxIndex)
    }

    /** The gas of the messages up to and including `msgIndex`, as a wrapping 64-bit sum. */
    method AccumulativeGasUsed(msgIndex: int) returns (result: uint64)
      requires msgIndex < |txs|
      ensures result == GasSum(txs[..if msgIndex < 0 then 0 else msgIndex + 1]) % U64
    {
      result := 0;
      var i := 0;
      while i <= msgIndex
        invariant 0 <= i <= |txs|
        invariant i == 0 || i <= msgIndex + 1
        invariant result == GasSum(txs[..i]) % U64
      {
        assert txs[..i + 1][..i] == txs[..i];
        WrapSum(GasSum(txs[..i]), txs[i].gasUsed);
        result := (result + txs[i].gasUsed) % U64;
        i := i + 1;
      }
    }
  }

  function GasSum(txs: seq<ParsedTx>): nat {
    if txs == [] then 0 else GasSum(txs[..|txs| - 1]) + txs[|txs| - 1].gasUsed
  }

  /** The gas of messages adds up. */
  lemma {:induction false} GasSumAdds(a: seq<ParsedTx>, b: seq<ParsedTx>, tx: ParsedTx)
    ensures GasSum(a + b) == GasSum(a) + GasSum(b)
    ensures GasSum([tx]) == tx.gasUsed
    decreases |b|
  {
    assert [tx][..0] == [] && GasSum([]) == 0;
    if b == [] {
      assert a + b == a;
    } else {
      GasSumAdds(a, b[..|b| - 1], tx);
      assert (a + b)[..|a + b| - 1] == a + b[..|b| - 1];
    }
  }

  /** Parses the events of a delivered transaction whose result carries the given gas. */
  method ParseTxResult(events: seq<Event>, gasUsed: int) returns (p: ParsedTxs, status: Status)
    ensures fresh(p)
    ensures status == StatusOf(Parse(events, gasUsed))
    ensures status == Success ==> p.Contents() == Parse(events, gasUsed).value && InRange(p.Contents())
    ensures forall start: uint64, msgs: seq<Message>, executed: nat :: Printed(start, msgs, executed, events) ==>
              && (status == Success <==> Readable(start, msgs, executed))
              && (status == Success ==> AllExpected(start, msgs, executed, gasUsed, p.txs))
  {
    hide Consume, Printed, Readable, AllExpected;
    var format, eventIndex := Unknown, -1;
    p := new ParsedTxs();
    status := Success;
    for i := 0 to |events|
      invariant fresh(p)
      invariant ConsumeAll(BEGIN, events[..i]) == Parsed(Progress(format, eventIndex, p.txs, p.txHashes))
      invariant status == Success
    {
      assert events[..i + 1][..i] == events[..i];
      status, format, eventIndex := p.Handle(format, eventIndex, events[i]);
      if status != Success {
        Stays(events, i + 1);
        AllPrinted(events, gasUsed);
        return;
      }
    }
    assert events[..|events|] == events;
    AllPrinted(events, gasUsed);
    PositionsInRange(events);
    if |p.txs| == 1 {
      p.txs := [p.txs[0].(gasUsed := gasUsed % U64)];
    }
  }

  lemma AllPrinted(events: seq<Event>, gasUsed: int)
    ensures forall start: uint64, msgs: seq<Message>, executed: nat :: Printed(start, msgs, executed, events) ==>
              && (Parse(events, gasUsed).Parsed? <==> Readable(start, msgs, executed))
              && (Parse(events, gasUsed).Parsed? ==> AllExpected(start, msgs, executed, gasUsed, Parse(events, gasUsed).value.txs))
  {
    hide Parse, Printed, Readable, AllExpected;
    forall start: uint64, msgs: seq<Message>, executed: nat | Printed(start, msgs, executed, events)
      ensures executed <= |msgs|
      ensures Parse(events, gasUsed).Parsed? <==> Readable(start, msgs, executed)
      ensures Parse(events, gasUsed).Parsed? ==> AllExpected(start, msgs, executed, gasUsed, Parse(events, gasUsed).value.txs)
    {
      ExecutedWithin(start, msgs, executed, events);
      ParseOfPrinted(start, msgs, executed, events, gasUsed);
    }
  }

  lemma ExecutedWithin(start: uint64, msgs: seq<Message>, executed: nat, events: seq<Event>)
    requires Printed(start, msgs, executed, events)
    ensures executed <= |msgs|
  {
  }

  /** Once parsing has gone wrong, later events do not change how. */
  lemma {:induction false} Stays(events: seq<Event>, i: nat)
    requires i <= |events| && !ConsumeAll(BEGIN, events[..i]).Parsed?
    ensures ConsumeAll(BEGIN, events) == ConsumeAll(BEGIN, events[..i])
    decreases |events| - i
  {
    hide Consume;
    if i == |events| {
      assert events[..i] == events;
    } else {
      assert events[..i + 1][..i] == events[..i];
      Stays(events, i + 1);
    }
  }

  ghost predicate InRange(found: Found) {
    forall h :: h in found.hashes ==> found.hashes[h] < |found.txs|
  }

  lemma ConsumeInRange(p: Progress, event: Event)
    requires InRange(Found(p.txs, p.hashes))
    ensures Consume(p, event).Parsed? ==> InRange(Found(Consume(p, event).value.txs, Consume(p, event).value.hashes))
  {
    hide Fill, RawLogs;
  }

  /** Every recorded position is that of a message, so looking up a hash never goes out of range. */
  lemma {:induction false} PositionsInRange(events: seq<Event>)
    ensures ConsumeAll(BEGIN, events).Parsed? ==>
      InRange(Found(ConsumeAll(BEGIN, events).value.txs, ConsumeAll(BEGIN, events).value.hashes))
  {
    hide Consume;
    if events != [] {
      var front := events[..|events| - 1];
      PositionsInRange(front);
      if ConsumeAll(BEGIN, front).Parsed? {
        ConsumeInRange(ConsumeAll(BEGIN, front).value, events[|events| - 1]);
      }
    }
  }
}
