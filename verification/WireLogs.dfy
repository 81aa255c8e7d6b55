/** The messages `Log` and `TransactionLogs`: what they are on the wire and that they come back. */
module WireLogs {
  import opened EvmTypes
  import opened Wire
  import opened WireTheorems

  /** `types.Log`; strings are their bytes. */
  datatype WireLog = WireLog(
    address: Bytes, topics: seq<Bytes>, data: Bytes, blockNumber: uint64, txHash: Bytes,
    txIndex: uint64, blockHash: Bytes, index: uint64, removed: bool)

  datatype TransactionLogs = TransactionLogs(hash: Bytes, logs: seq<WireLog>)

  const EMPTY_LOG := WireLog([], [], [], 0, [], 0, [], 0, false)

  const EMPTY_LOGS := TransactionLogs([], [])

  // ---- what reading a field does ----

  function LogWireType(field: int): Option<nat> {
    if field == 1 || field == 2 || field == 3 || field == 5 || field == 7 then Some(LENGTH_DELIMITED)
    else if field == 4 || field == 6 || field == 8 || field == 9 then Some(VARINT)
    else None
  }

  function PutLog(m: WireLog, field: int, payload: Payload): Result<WireLog> {
    if payload.Chunk? then
      if field == 1 then Ok(m.(address := payload.bytes))
      else if field == 2 then Ok(m.(topics := m.topics + [payload.bytes]))
      else if field == 3 then Ok(m.(data := payload.bytes))
      else if field == 5 then Ok(m.(txHash := payload.bytes))
      else if field == 7 then Ok(m.(blockHash := payload.bytes))
      else Err(WrongWireType)
    else
      var value := payload.number % U64;
      if field == 4 then Ok(m.(blockNumber := value))
      else if field == 6 then Ok(m.(txIndex := value))
      else if field == 8 then Ok(m.(index := value))
      else if field == 9 then Ok(m.(removed := value != 0))
      else Err(WrongWireType)
  }

  const LOG := Schema(LogWireType, PutLog)

  function LogsWireType(field: int): Option<nat> {
    if field == 1 || field == 2 then Some(LENGTH_DELIMITED) else None
  }

  function PutLogs(m: TransactionLogs, field: int, payload: Payload): Result<TransactionLogs> {
    if payload.Number? then Err(WrongWireType)
    else if field == 1 then Ok(m.(hash := payload.bytes))
    else if field == 2 then
      var log := Unmarshal(LOG, EMPTY_LOG, payload.bytes);
      if log.Err? then Err(log.error) else Ok(m.(logs := m.logs + [log.value]))
    else Err(WrongWireType)
  }

  const TRANSACTION_LOGS := Schema(LogsWireType, PutLogs)

  lemma SchemasSound()
    ensures Sound(LOG) && Sound(TRANSACTION_LOGS)
  {
  }

  // ---- what is written ----

  function BytesPart(field: nat, bytes: Bytes): seq<Record> {
    if bytes == [] then [] else [BytesRecord(field, bytes)]
  }

  function NumberPart(field: nat, value: uint64): seq<Record> {
    if value == 0 then [] else [VarintRecord(field, value)]
  }

  /** The repeated field, number 2 in both messages. */
  function Repeated(items: seq<Bytes>): seq<Record> {
    if items == [] then [] else Repeated(items[..|items| - 1]) + [BytesRecord(2, items[|items| - 1])]
  }

  function LogRecords(m: WireLog): seq<Record> {
    BytesPart(1, m.address) + Repeated(m.topics) + BytesPart(3, m.data) + NumberPart(4, m.blockNumber)
    + BytesPart(5, m.txHash) + NumberPart(6, m.txIndex) + BytesPart(7, m.blockHash) + NumberPart(8, m.index)
    + NumberPart(9, if m.removed then 1 else 0)
  }

  /** The bytes of a log: its non-zero fields in the order of their numbers. */
  function EncodeLog(m: WireLog): Bytes {
    EncodeAll(LogRecords(m))
  }

  function EncodeEach(logs: seq<WireLog>): (items: seq<Bytes>)
    ensures |items| == |logs| && forall i :: 0 <= i < |logs| ==> items[i] == EncodeLog(logs[i])
  {
    if logs == [] then [] else EncodeEach(logs[..|logs| - 1]) + [EncodeLog(logs[|logs| - 1])]
  }

  function LogsRecords(m: TransactionLogs): seq<Record> {
    BytesPart(1, m.hash) + Repeated(EncodeEach(m.logs))
  }

  function EncodeLogs(m: TransactionLogs): Bytes {
    EncodeAll(LogsRecords(m))
  }

  // ---- records in sequence ----

  lemma {:induction false} EncodeConcat(a: seq<Record>, b: seq<Record>)
    ensures EncodeAll(a + b) == EncodeAll(a) + EncodeAll(b)
  {
    hide Encode;
    if a == [] {
      assert a + b == b;
    } else {
      EncodeConcat(a[1..], b);
      assert (a + b)[1..] == a[1..] + b;
    }
  }

  lemma EncodeSingle(r: Record)
    ensures EncodeAll([r]) == Encode(r)
  {
    hide Encode;
    assert [r][1..] == [];
    assert EncodeAll([]) == [];
  }

  lemma {:induction false} ApplyConcat<M>(schema: Schema<M>, m: M, a: seq<Record>, b: seq<Record>)
    ensures ApplyAll(schema, m, a + b)
         == var m' := ApplyAll(schema, m, a); if m'.Err? then m' else ApplyAll(schema, m'.value, b)
    decreases |a|
  {
    hide Apply;
    if a == [] {
      assert a + b == b;
    } else {
      assert (a + b)[1..] == a[1..] + b;
      var m' := Apply(schema, m, a[0]);
      if m'.Ok? {
        ApplyConcat(schema, m'.value, a[1..], b);
      }
    }
  }

  lemma ApplySingle<M>(schema: Schema<M>, m: M, r: Record)
    ensures ApplyAll(schema, m, [r]) == Apply(schema, m, r)
  {
    hide Apply;
    assert [r][1..] == [];
  }

  /** Records without a meaning to the message type make no difference, wherever they stand. */
  lemma UnknownIgnored<M(!new)>(schema: Schema<M>, m: M, a: seq<Record>, u: Record, b: seq<Record>)
    requires Sound(schema) && schema.wireType(u.field).None? && |EncodeAll(a + [u] + b)| < I64
    requires AllWellFormed(a + [u] + b)
    ensures Unmarshal(schema, m, EncodeAll(a + [u] + b)) == Unmarshal(schema, m, EncodeAll(a + b))
  {
    hide Unmarshal, ApplyAll, Encode, Sound;
    EncodeConcat(a + [u], b);
    EncodeConcat(a, [u]);
    EncodeConcat(a, b);
    forall i | 0 <= i < |a + b|
      ensures (a + b)[i].WellFormed()
    {
      assert (a + b)[i] == (a + [u] + b)[if i < |a| then i else i + 1];
    }
    UnmarshalRecords(schema, m, a + [u] + b);
    UnmarshalRecords(schema, m, a + b);
    ApplyConcat(schema, m, a + [u], b);
    ApplyConcat(schema, m, a, [u]);
    ApplyConcat(schema, m, a, b);
    var m' := ApplyAll(schema, m, a);
    if m'.Ok? {
      ApplySingle(schema, m'.value, u);
    }
  }

  // ---- the round trip of a log ----

  lemma ApplyBytesPart(m: WireLog, field: nat, bytes: Bytes)
    requires field in {1, 3, 5, 7}
    requires bytes == [] ==> PutLog(m, field, Chunk([])) == Ok(m)
    ensures ApplyAll(LOG, m, BytesPart(field, bytes)) == PutLog(m, field, Chunk(bytes))
  {
    if bytes != [] {
      ApplySingle(LOG, m, BytesRecord(field, bytes));
    }
  }

  lemma ApplyNumberPart(m: WireLog, field: nat, value: uint64)
    requires field in {4, 6, 8, 9}
    requires value == 0 ==> PutLog(m, field, Number(0)) == Ok(m)
    ensures ApplyAll(LOG, m, NumberPart(field, value)) == PutLog(m, field, Number(value))
  {
    if value != 0 {
      ApplySingle(LOG, m, VarintRecord(field, value));
    }
  }

  lemma {:induction false} ApplyTopics(m: WireLog, topics: seq<Bytes>)
    ensures ApplyAll(LOG, m, Repeated(topics)) == Ok(m.(topics := m.topics + topics))
  {
    if topics == [] {
      assert m.topics + topics == m.topics;
    } else {
      var last := |topics| - 1;
      ApplyTopics(m, topics[..last]);
      ApplyConcat(LOG, m, Repeated(topics[..last]), [BytesRecord(2, topics[last])]);
      var m' := m.(topics := m.topics + topics[..last]);
      ApplySingle(LOG, m', BytesRecord(2, topics[last]));
      assert m'.topics + [topics[last]] == m.topics + topics;
    }
  }

  /** Reading one more part brings one more field. */
  lemma Extend(m: WireLog, rs: seq<Record>, m1: WireLog, part: seq<Record>, m2: WireLog)
    requires ApplyAll(LOG, m, rs) == Ok(m1) && ApplyAll(LOG, m1, part) == Ok(m2)
    ensures ApplyAll(LOG, m, rs + part) == Ok(m2)
  {
    ApplyConcat(LOG, m, rs, part);
  }

  lemma RecordsOfLog(m: WireLog)
    ensures ApplyAll(LOG, EMPTY_LOG, LogRecords(m)) == Ok(m)
  {
    hide ApplyAll, BytesPart, NumberPart, Repeated;
    var m1 := EMPTY_LOG.(address := m.address);
    var m2 := m1.(topics := m.topics);
    var m3 := m2.(data := m.data);
    var m4 := m3.(blockNumber := m.blockNumber);
    var m5 := m4.(txHash := m.txHash);
    var m6 := m5.(txIndex := m.txIndex);
    var m7 := m6.(blockHash := m.blockHash);
    var m8 := m7.(index := m.index);
    ApplyBytesPart(EMPTY_LOG, 1, m.address);
    ApplyTopics(m1, m.topics);
    assert [] + m.topics == m.topics;
    ApplyBytesPart(m2, 3, m.data);
    ApplyNumberPart(m3, 4, m.blockNumber);
    ApplyBytesPart(m4, 5, m.txHash);
    ApplyNumberPart(m5, 6, m.txIndex);
    ApplyBytesPart(m6, 7, m.blockHash);
    ApplyNumberPart(m7, 8, m.index);
    ApplyNumberPart(m8, 9, if m.removed then 1 else 0);
    var r1 := BytesPart(1, m.address);
    var r2 := r1 + Repeated(m.topics);
    var r3 := r2 + BytesPart(3, m.data);
    var r4 := r3 + NumberPart(4, m.blockNumber);
    var r5 := r4 + BytesPart(5, m.txHash);
    var r6 := r5 + NumberPart(6, m.txIndex);
    var r7 := r6 + BytesPart(7, m.blockHash);
    var r8 := r7 + NumberPart(8, m.index);
    Extend(EMPTY_LOG, r1, m1, Repeated(m.topics), m2);
    Extend(EMPTY_LOG, r2, m2, BytesPart(3, m.data), m3);
    Extend(EMPTY_LOG, r3, m3, NumberPart(4, m.blockNumber), m4);
    Extend(EMPTY_LOG, r4, m4, BytesPart(5, m.txHash), m5);
    Extend(EMPTY_LOG, r5, m5, NumberPart(6, m.txIndex), m6);
    Extend(EMPTY_LOG, r6, m6, BytesPart(7, m.blockHash), m7);
    Extend(EMPTY_LOG, r7, m7, NumberPart(8, m.index), m8);
    Extend(EMPTY_LOG, r8, m8, NumberPart(9, if m.removed then 1 else 0), m);
  }

  lemma {:induction false} RepeatedWellFormed(topics: seq<Bytes>)
    ensures AllWellFormed(Repeated(topics))
  {
    if topics != [] {
      RepeatedWellFormed(topics[..|topics| - 1]);
    }
  }

  lemma WellFormedConcat(a: seq<Record>, b: seq<Record>)
    requires AllWellFormed(a) && AllWellFormed(b)
    ensures AllWellFormed(a + b)
  {
  }

  lemma PartsWellFormed(field: nat, bytes: Bytes, value: uint64)
    requires 1 <= field < 16
    ensures AllWellFormed(BytesPart(field, bytes)) && AllWellFormed(NumberPart(field, value))
  {
  }

  lemma LogWellFormed(m: WireLog)
    ensures AllWellFormed(LogRecords(m))
  {
    hide AllWellFormed, Repeated, BytesPart, NumberPart;
    var removed := if m.removed then 1 else 0;
    PartsWellFormed(1, m.address, 0);
    RepeatedWellFormed(m.topics);
    PartsWellFormed(3, m.data, 0);
    PartsWellFormed(4, [], m.blockNumber);
    PartsWellFormed(5, m.txHash, 0);
    PartsWellFormed(6, [], m.txIndex);
    PartsWellFormed(7, m.blockHash, 0);
    PartsWellFormed(8, [], m.index);
    PartsWellFormed(9, [], removed);
    var r2 := BytesPart(1, m.address) + Repeated(m.topics);
    var r4 := r2 + BytesPart(3, m.data) + NumberPart(4, m.blockNumber);
    var r6 := r4 + BytesPart(5, m.txHash) + NumberPart(6, m.txIndex);
    WellFormedConcat(BytesPart(1, m.address), Repeated(m.topics));
    WellFormedConcat(r2, BytesPart(3, m.data));
    WellFormedConcat(r2 + BytesPart(3, m.data), NumberPart(4, m.blockNumber));
    WellFormedConcat(r4, BytesPart(5, m.txHash));
    WellFormedConcat(r4 + BytesPart(5, m.txHash), NumberPart(6, m.txIndex));
    WellFormedConcat(r6, BytesPart(7, m.blockHash));
    WellFormedConcat(r6 + BytesPart(7, m.blockHash), NumberPart(8, m.index));
    WellFormedConcat(r6 + BytesPart(7, m.blockHash) + NumberPart(8, m.index), NumberPart(9, removed));
  }

  /** Every log comes back from its bytes. */
  lemma UnmarshalOfMarshal(m: WireLog)
    requires |EncodeLog(m)| < I64
    ensures Unmarshal(LOG, EMPTY_LOG, EncodeLog(m)) == Ok(m)
  {
    hide Unmarshal, ApplyAll, LogRecords, EncodeAll, Sound;
    SchemasSound();
    LogWellFormed(m);
    UnmarshalRecords(LOG, EMPTY_LOG, LogRecords(m));
    RecordsOfLog(m);
  }

  // ---- the round trip of a transaction's logs ----

  lemma {:induction false} ApplyLogs(m: TransactionLogs, logs: seq<WireLog>)
    requires |EncodeAll(Repeated(EncodeEach(logs)))| < I64
    ensures ApplyAll(TRANSACTION_LOGS, m, Repeated(EncodeEach(logs))) == Ok(m.(logs := m.logs + logs))
    decreases |logs|
  {
    hide ApplyAll, EncodeAll, Encode, EncodeLog, Unmarshal;
    if logs == [] {
      ApplyNone(m);
      assert m.logs + logs == m.logs;
    } else {
      var last := |logs| - 1;
      var front, r := Repeated(EncodeEach(logs[..last])), BytesRecord(2, EncodeLog(logs[last]));
      assert EncodeEach(logs)[..last] == EncodeEach(logs[..last]);
      EncodeConcat(front, [r]);
      EncodeSingle(r);
      ApplyLogs(m, logs[..last]);
      ApplyConcat(TRANSACTION_LOGS, m, front, [r]);
      var m' := m.(logs := m.logs + logs[..last]);
      ApplySingle(TRANSACTION_LOGS, m', r);
      PayloadInside(r);
      UnmarshalOfMarshal(logs[last]);
      assert m'.logs + [logs[last]] == m.logs + logs;
    }
  }

  lemma ApplyNone(m: TransactionLogs)
    ensures ApplyAll(TRANSACTION_LOGS, m, []) == Ok(m)
  {
  }

  lemma PayloadInside(r: Record)
    requires r.BytesRecord?
    ensures |r.bytes| < |Encode(r)|
  {
  }

  /** The logs of a transaction come back from their bytes, nested messages included. */
  lemma UnmarshalOfMarshalLogs(m: TransactionLogs)
    requires |EncodeLogs(m)| < I64
    ensures Unmarshal(TRANSACTION_LOGS, EMPTY_LOGS, EncodeLogs(m)) == Ok(m)
  {
    hide Unmarshal, ApplyAll, EncodeAll, Repeated, EncodeEach, Encode, Sound;
    SchemasSound();
    var hash, logs := BytesPart(1, m.hash), Repeated(EncodeEach(m.logs));
    RepeatedWellFormed(EncodeEach(m.logs));
    UnmarshalRecords(TRANSACTION_LOGS, EMPTY_LOGS, LogsRecords(m));
    EncodeConcat(hash, logs);
    ApplyConcat(TRANSACTION_LOGS, EMPTY_LOGS, hash, logs);
    if m.hash == [] {
      ApplyNone(EMPTY_LOGS);
    } else {
      ApplySingle(TRANSACTION_LOGS, EMPTY_LOGS, BytesRecord(1, m.hash));
    }
    ApplyLogs(EMPTY_LOGS.(hash := m.hash), m.logs);
    assert [] + m.logs == m.logs;
  }
}
