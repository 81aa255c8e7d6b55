/** The writers: `Size` computes how long a message is, and `Marshal` fills a buffer of that size from its end. */
module WireWriters {
  import opened EvmTypes
  import opened Wire
  import opened WireTheorems
  import opened WireLogs

  // ---- sizes ----

  /** The size of a length-delimited field with a one-byte tag. */
  lemma BytesSize(field: nat, bytes: Bytes)
    requires 1 <= field < 16
    ensures |EncodeAll([BytesRecord(field, bytes)])| == 1 + |bytes| + VarintSize(|bytes|)
    ensures Encode(BytesRecord(field, bytes)) == [(8 * field + 2) as byte] + Varint(|bytes|) + bytes
  {
    EncodeSingle(BytesRecord(field, bytes));
    VarintSizeIs(|bytes|);
  }

  lemma NumberSize(field: nat, value: uint64)
    requires 1 <= field < 16
    ensures |EncodeAll([VarintRecord(field, value)])| == 1 + VarintSize(value)
    ensures Encode(VarintRecord(field, value)) == [(8 * field) as byte] + Varint(value)
  {
    EncodeSingle(VarintRecord(field, value));
    VarintSizeIs(value);
  }

  /** A field is left out when it is empty. */
  function BytesPartSize(bytes: Bytes): nat {
    if bytes == [] then 0 else 1 + |bytes| + VarintSize(|bytes|)
  }

  function NumberPartSize(value: uint64): nat {
    if value == 0 then 0 else 1 + VarintSize(value)
  }

  lemma PartSizes(field: nat, bytes: Bytes, value: uint64)
    requires 1 <= field < 16
    ensures |EncodeAll(BytesPart(field, bytes))| == BytesPartSize(bytes)
    ensures |EncodeAll(NumberPart(field, value))| == NumberPartSize(value)
  {
    BytesSize(field, bytes);
    NumberSize(field, value);
  }

  /** `Log.Size`: the number of bytes the log takes on the wire. */
  method LogSize(m: WireLog) returns (n: nat)
    ensures n == |EncodeLog(m)|
  {
    hide VarintSize, EncodeAll, BytesPart, NumberPart, Repeated, BytesPartSize, NumberPartSize;
    LogLength(m);
    n := BytesPartSize(m.address);
    NoItems();
    for k := 0 to |m.topics|
      invariant n == BytesPartSize(m.address) + |EncodeAll(Repeated(m.topics[..k]))|
    {
      ItemPushed(m.topics, k);
      BytesSize(2, m.topics[k]);
      EncodeSingle(BytesRecord(2, m.topics[k]));
      n := n + 1 + |m.topics[k]| + VarintSize(|m.topics[k]|);
    }
    assert m.topics[..|m.topics|] == m.topics;
    n := n + BytesPartSize(m.data) + NumberPartSize(m.blockNumber) + BytesPartSize(m.txHash);
    n := n + NumberPartSize(m.txIndex) + BytesPartSize(m.blockHash) + NumberPartSize(m.index);
    if m.removed {
      n := n + 2;
    }
  }

  lemma NoItems()
    ensures EncodeAll(Repeated([])) == []
  {
  }

  lemma ItemPushed(items: seq<Bytes>, k: nat)
    requires k < |items|
    ensures EncodeAll(Repeated(items[..k + 1])) == EncodeAll(Repeated(items[..k])) + Encode(BytesRecord(2, items[k]))
  {
    hide Encode;
    assert items[..k + 1][..k] == items[..k];
    EncodeConcat(Repeated(items[..k]), [BytesRecord(2, items[k])]);
    EncodeSingle(BytesRecord(2, items[k]));
  }

  lemma LogLength(m: WireLog)
    ensures |EncodeLog(m)|
         == BytesPartSize(m.address) + |EncodeAll(Repeated(m.topics))| + BytesPartSize(m.data)
            + NumberPartSize(m.blockNumber) + BytesPartSize(m.txHash) + NumberPartSize(m.txIndex)
            + BytesPartSize(m.blockHash) + NumberPartSize(m.index) + if m.removed then 2 else 0
  {
    hide VarintSize, EncodeAll, BytesPart, NumberPart, Repeated, BytesPartSize, NumberPartSize;
    var removed := if m.removed then 1 else 0;
    PartSizes(1, m.address, 0);
    PartSizes(3, m.data, m.blockNumber);
    PartSizes(4, [], m.blockNumber);
    PartSizes(5, m.txHash, 0);
    PartSizes(6, [], m.txIndex);
    PartSizes(7, m.blockHash, 0);
    PartSizes(8, [], m.index);
    PartSizes(9, [], removed);
    RemovedSize(removed);
    Suffixes(m);
  }

  lemma RemovedSize(removed: uint64)
    requires removed <= 1
    ensures NumberPartSize(removed) == 2 * removed
  {
  }

  // ---- the tail of a log from each field on ----

  function Removed(m: WireLog): seq<Record> {
    NumberPart(9, if m.removed then 1 else 0)
  }

  function From8(m: WireLog): seq<Record> {
    NumberPart(8, m.index) + Removed(m)
  }

  function From7(m: WireLog): seq<Record> {
    BytesPart(7, m.blockHash) + From8(m)
  }

  function From6(m: WireLog): seq<Record> {
    NumberPart(6, m.txIndex) + From7(m)
  }

  function From5(m: WireLog): seq<Record> {
    BytesPart(5, m.txHash) + From6(m)
  }

  function From4(m: WireLog): seq<Record> {
    NumberPart(4, m.blockNumber) + From5(m)
  }

  function From3(m: WireLog): seq<Record> {
    BytesPart(3, m.data) + From4(m)
  }

  function From2(m: WireLog): seq<Record> {
    Repeated(m.topics) + From3(m)
  }

  /** The bytes of a log, field by field from the back. */
  lemma Suffixes(m: WireLog)
    ensures EncodeLog(m) == EncodeAll(BytesPart(1, m.address)) + EncodeAll(From2(m))
    ensures EncodeAll(From2(m)) == EncodeAll(Repeated(m.topics)) + EncodeAll(From3(m))
    ensures EncodeAll(From3(m)) == EncodeAll(BytesPart(3, m.data)) + EncodeAll(From4(m))
    ensures EncodeAll(From4(m)) == EncodeAll(NumberPart(4, m.blockNumber)) + EncodeAll(From5(m))
    ensures EncodeAll(From5(m)) == EncodeAll(BytesPart(5, m.txHash)) + EncodeAll(From6(m))
    ensures EncodeAll(From6(m)) == EncodeAll(NumberPart(6, m.txIndex)) + EncodeAll(From7(m))
    ensures EncodeAll(From7(m)) == EncodeAll(BytesPart(7, m.blockHash)) + EncodeAll(From8(m))
    ensures EncodeAll(From8(m)) == EncodeAll(NumberPart(8, m.index)) + EncodeAll(Removed(m))
  {
    hide EncodeAll, BytesPart, NumberPart, Repeated;
    EncodeConcat(BytesPart(1, m.address), From2(m));
    EncodeConcat(Repeated(m.topics), From3(m));
    EncodeConcat(BytesPart(3, m.data), From4(m));
    EncodeConcat(NumberPart(4, m.blockNumber), From5(m));
    EncodeConcat(BytesPart(5, m.txHash), From6(m));
    EncodeConcat(NumberPart(6, m.txIndex), From7(m));
    EncodeConcat(BytesPart(7, m.blockHash), From8(m));
    EncodeConcat(NumberPart(8, m.index), Removed(m));
    assert LogRecords(m) == BytesPart(1, m.address) + From2(m);
  }

  // ---- writing backwards ----

  /** A buffer after a part was written so that it ends before i. */
  function Overwrite(s: Bytes, i: nat, part: Bytes): (s': Bytes)
    requires |part| <= i <= |s|
    ensures |s'| == |s|
  {
    s[..i - |part|] + part + s[i..]
  }

  lemma OverwriteTwice(s: Bytes, i: nat, back: Bytes, front: Bytes)
    requires |front| + |back| <= i <= |s|
    ensures Overwrite(Overwrite(s, i, back), i - |back|, front) == Overwrite(s, i, front + back)
  {
  }

  lemma OverwriteNothing(s: Bytes, i: nat)
    requires i <= |s|
    ensures Overwrite(s, i, []) == s
  {
  }

  lemma VarintStep(done: Bytes, rest: nat)
    ensures rest < 128 ==> Varint(rest) == [rest as byte]
    ensures rest >= 128 ==> done + Varint(rest) == (done + [Group(rest)]) + Varint(rest / 128)
    ensures rest >= 128 ==> |Varint(rest)| == 1 + |Varint(rest / 128)|
  {
    hide Group;
    if rest >= 128 {
      Associate(done, [Group(rest)], Varint(rest / 128));
    }
  }

  lemma Associate(a: Bytes, b: Bytes, c: Bytes)
    ensures a + (b + c) == (a + b) + c
  {
  }

  /** `encodeVarintEvm`: writes the number so that it ends before `offset`, and gives back where it starts. */
  method EncodeVarint(a: array<byte>, offset: nat, v: uint64) returns (base: nat)
    requires |Varint(v)| <= offset <= a.Length
    modifies a
    ensures base == offset - |Varint(v)|
    ensures a[..] == Overwrite(old(a[..]), offset, Varint(v))
  {
    hide VarintSize, Varint, Group;
    VarintSizeIs(v);
    base := offset - VarintSize(v);
    var o, rest: nat := base, v;
    while rest >= 128
      invariant base <= o && o + |Varint(rest)| == offset
      invariant a[base..o] + Varint(rest) == Varint(v)
      invariant a[..base] == old(a[..base]) && a[offset..] == old(a[offset..])
      decreases rest
    {
      ghost var done := a[base..o];
      VarintStep(done, rest);
      a[o] := Group(rest);
      assert a[base..o + 1] == done + [Group(rest)];
      rest := rest / 128;
      o := o + 1;
    }
    ghost var done := a[base..o];
    VarintStep(done, rest);
    a[o] := rest as byte;
    assert a[base..offset] == done + [rest as byte];
    assert a[..] == a[..base] + a[base..offset] + a[offset..];
  }

  method Copy(a: array<byte>, i: nat, bytes: Bytes) returns (i': nat)
    requires |bytes| <= i <= a.Length
    modifies a
    ensures i' == i - |bytes|
    ensures a[..] == Overwrite(old(a[..]), i, bytes)
  {
    i' := i - |bytes|;
    for k := 0 to |bytes|
      invariant a[i'..i' + k] == bytes[..k]
      invariant a[..i'] == old(a[..i']) && a[i..] == old(a[i..])
    {
      a[i' + k] := bytes[k];
      assert a[i'..i' + k + 1] == a[i'..i' + k] + [bytes[k]];
    }
    assert a[..] == a[..i'] + a[i'..i] + a[i..];
  }

  method PutByte(a: array<byte>, i: nat, b: byte) returns (i': nat)
    requires 1 <= i <= a.Length
    modifies a
    ensures i' == i - 1
    ensures a[..] == Overwrite(old(a[..]), i, [b])
  {
    i' := i - 1;
    a[i'] := b;
  }

  /** The tag and the length of a field, in front of the position where its payload starts. */
  method PrependHeader(a: array<byte>, i: nat, field: nat, length: uint64) returns (i': nat)
    requires 1 <= field < 16 && 1 + |Varint(length)| <= i <= a.Length
    modifies a
    ensures i' == i - 1 - |Varint(length)|
    ensures a[..] == Overwrite(old(a[..]), i, [(8 * field + 2) as byte] + Varint(length))
  {
    hide Varint, Overwrite;
    i' := EncodeVarint(a, i, length);
    i' := PutByte(a, i', (8 * field + 2) as byte);
    OverwriteTwice(old(a[..]), i, Varint(length), [(8 * field + 2) as byte]);
  }

  /** Writes a length-delimited field in front of what is already written. */
  method PrependBytes(a: array<byte>, i: nat, field: nat, bytes: Bytes) returns (i': nat)
    requires 1 <= field < 16 && |bytes| < U64
    requires |Encode(BytesRecord(field, bytes))| <= i <= a.Length
    modifies a
    ensures i' == i - |Encode(BytesRecord(field, bytes))|
    ensures a[..] == Overwrite(old(a[..]), i, Encode(BytesRecord(field, bytes)))
  {
    hide Varint, Encode, EncodeAll, Overwrite;
    BytesSize(field, bytes);
    i' := Copy(a, i, bytes);
    i' := PrependHeader(a, i', field, |bytes|);
    OverwriteTwice(old(a[..]), i, bytes, [(8 * field + 2) as byte] + Varint(|bytes|));
  }

  /** Writes a length-delimited field unless it is empty. */
  method PrependBytesPart(a: array<byte>, i: nat, field: nat, bytes: Bytes) returns (i': nat)
    requires 1 <= field < 16 && |bytes| < U64
    requires |EncodeAll(BytesPart(field, bytes))| <= i <= a.Length
    modifies a
    ensures i' == i - |EncodeAll(BytesPart(field, bytes))|
    ensures a[..] == Overwrite(old(a[..]), i, EncodeAll(BytesPart(field, bytes)))
  {
    hide Encode, Overwrite;
    i' := i;
    OverwriteNothing(a[..], i);
    if bytes != [] {
      EncodeSingle(BytesRecord(field, bytes));
      i' := PrependBytes(a, i, field, bytes);
    }
  }

  /** Writes a varint field unless it is zero. */
  method PrependNumberPart(a: array<byte>, i: nat, field: nat, value: uint64) returns (i': nat)
    requires 1 <= field < 16 && |EncodeAll(NumberPart(field, value))| <= i <= a.Length
    modifies a
    ensures i' == i - |EncodeAll(NumberPart(field, value))|
    ensures a[..] == Overwrite(old(a[..]), i, EncodeAll(NumberPart(field, value)))
  {
    hide Encode, Varint, Overwrite;
    i' := i;
    OverwriteNothing(a[..], i);
    if value != 0 {
      EncodeSingle(VarintRecord(field, value));
      NumberSize(field, value);
      i' := EncodeVarint(a, i, value);
      i' := PutByte(a, i', (8 * field) as byte);
      OverwriteTwice(old(a[..]), i, Varint(value), [(8 * field) as byte]);
    }
  }

  /** The items from the k-th on. */
  lemma {:induction false} ItemsHead(items: seq<Bytes>, k: nat)
    requires k < |items|
    ensures EncodeAll(Repeated(items[k..])) == Encode(BytesRecord(2, items[k])) + EncodeAll(Repeated(items[k + 1..]))
    decreases |items|
  {
    hide Encode;
    var last := |items| - 1;
    if k == last {
      assert items[k..] == [items[k]] && items[k + 1..] == [];
      ItemPushed([items[k]], 0);
      NoItems();
      assert [items[k]][..1] == [items[k]];
    } else {
      ItemsHead(items[..last], k);
      LastItem(items, k);
      LastItem(items, k + 1);
    }
  }

  lemma LastItem(items: seq<Bytes>, k: nat)
    requires k < |items|
    ensures var last := |items| - 1;
            EncodeAll(Repeated(items[k..])) == EncodeAll(Repeated(items[..last][k..])) + Encode(BytesRecord(2, items[last]))
  {
    hide Encode;
    var last := |items| - 1;
    ItemPushed(items[k..], last - k);
    assert items[k..][..last - k] == items[..last][k..];
    assert items[k..][..last - k + 1] == items[k..];
  }

  /** A repeated field, from the last to the first. */
  method PrependItems(a: array<byte>, i: nat, items: seq<Bytes>) returns (i': nat)
    requires |EncodeAll(Repeated(items))| <= i <= a.Length && i < U64
    modifies a
    ensures i' == i - |EncodeAll(Repeated(items))|
    ensures a[..] == Overwrite(old(a[..]), i, EncodeAll(Repeated(items)))
  {
    hide Encode, EncodeAll, Repeated, Overwrite;
    i' := i;
    var k := |items|;
    NoItems();
    OverwriteNothing(a[..], i);
    assert items[k..] == [];
    while k > 0
      invariant 0 <= k <= |items|
      invariant i' == i - |EncodeAll(Repeated(items[k..]))| && |EncodeAll(Repeated(items[k..]))| <= i
      invariant a[..] == Overwrite(old(a[..]), i, EncodeAll(Repeated(items[k..])))
    {
      k := k - 1;
      ItemsHead(items, k);
      ItemsFit(items, k);
      PayloadInside(BytesRecord(2, items[k]));
      i' := PrependBytes(a, i', 2, items[k]);
      OverwriteTwice(old(a[..]), i, EncodeAll(Repeated(items[k + 1..])), Encode(BytesRecord(2, items[k])));
    }
    assert items[0..] == items;
  }

  lemma {:induction false} ItemsFit(items: seq<Bytes>, k: nat)
    requires k <= |items|
    ensures |EncodeAll(Repeated(items[k..]))| <= |EncodeAll(Repeated(items))|
  {
    hide Encode, EncodeAll, Repeated;
    if k == 0 {
      assert items[0..] == items;
    } else {
      ItemsHead(items, k - 1);
      ItemsFit(items, k - 1);
    }
  }

  // ---- whole messages ----

  /** `Log.MarshalToSizedBuffer`: the fields of a log from the last to the first, in front of `end`. */
  method MarshalLogTo(a: array<byte>, end: nat, m: WireLog) returns (i: nat)
    requires |EncodeLog(m)| <= end <= a.Length && end < U64
    modifies a
    ensures i == end - |EncodeLog(m)|
    ensures a[..] == Overwrite(old(a[..]), end, EncodeLog(m))
  {
    hide EncodeAll, EncodeLog, BytesPart, NumberPart, Repeated, Overwrite;
    hide Removed, From8, From7, From6, From5, From4, From3, From2;
    ghost var s := a[..];
    Suffixes(m);
    PayloadsFit(m);
    i := MarshalLogTail(a, end, m);
    ghost var tail := EncodeAll(From4(m));
    i := PrependBytesPart(a, i, 3, m.data);
    OverwriteTwice(s, end, tail, EncodeAll(BytesPart(3, m.data)));
    i := PrependItems(a, i, m.topics);
    OverwriteTwice(s, end, EncodeAll(From3(m)), EncodeAll(Repeated(m.topics)));
    i := PrependBytesPart(a, i, 1, m.address);
    OverwriteTwice(s, end, EncodeAll(From2(m)), EncodeAll(BytesPart(1, m.address)));
  }

  /** The fields from number 4 on. */
  method MarshalLogTail(a: array<byte>, end: nat, m: WireLog) returns (i: nat)
    requires |EncodeAll(From4(m))| <= end <= a.Length && end < U64
    modifies a
    ensures i == end - |EncodeAll(From4(m))|
    ensures a[..] == Overwrite(old(a[..]), end, EncodeAll(From4(m)))
  {
    hide EncodeAll, EncodeLog, BytesPart, NumberPart, Repeated, Overwrite;
    hide From8, From7, From6, From5, From4, From3, From2;
    ghost var s := a[..];
    Suffixes(m);
    PayloadsFit(m);
    i := PrependNumberPart(a, end, 9, if m.removed then 1 else 0);
    i := PrependNumberPart(a, i, 8, m.index);
    OverwriteTwice(s, end, EncodeAll(Removed(m)), EncodeAll(NumberPart(8, m.index)));
    i := PrependBytesPart(a, i, 7, m.blockHash);
    OverwriteTwice(s, end, EncodeAll(From8(m)), EncodeAll(BytesPart(7, m.blockHash)));
    i := PrependNumberPart(a, i, 6, m.txIndex);
    OverwriteTwice(s, end, EncodeAll(From7(m)), EncodeAll(NumberPart(6, m.txIndex)));
    i := PrependBytesPart(a, i, 5, m.txHash);
    OverwriteTwice(s, end, EncodeAll(From6(m)), EncodeAll(BytesPart(5, m.txHash)));
    i := PrependNumberPart(a, i, 4, m.blockNumber);
    OverwriteTwice(s, end, EncodeAll(From5(m)), EncodeAll(NumberPart(4, m.blockNumber)));
  }

  /** A payload is shorter than its field. */
  lemma PayloadFits(field: nat, bytes: Bytes)
    ensures |bytes| <= |EncodeAll(BytesPart(field, bytes))|
  {
    if bytes != [] {
      EncodeSingle(BytesRecord(field, bytes));
      PayloadInside(BytesRecord(field, bytes));
    }
  }

  lemma PayloadsFit(m: WireLog)
    ensures |m.address| <= |EncodeAll(BytesPart(1, m.address))| && |m.data| <= |EncodeAll(BytesPart(3, m.data))|
    ensures |m.txHash| <= |EncodeAll(BytesPart(5, m.txHash))| && |m.blockHash| <= |EncodeAll(BytesPart(7, m.blockHash))|
  {
    PayloadFits(1, m.address);
    PayloadFits(3, m.data);
    PayloadFits(5, m.txHash);
    PayloadFits(7, m.blockHash);
  }

  /** `TransactionLogs.MarshalToSizedBuffer`: each log is written in place and then gets its length and tag. */
  method MarshalLogsTo(a: array<byte>, end: nat, m: TransactionLogs) returns (i: nat)
    requires |EncodeLogs(m)| <= end <= a.Length && end < U64
    modifies a
    ensures i == end - |EncodeLogs(m)|
    ensures a[..] == Overwrite(old(a[..]), end, EncodeLogs(m))
  {
    hide Encode, EncodeAll, EncodeLog, EncodeEach, BytesPart, Repeated, Overwrite;
    ghost var items := EncodeEach(m.logs);
    EncodeConcat(BytesPart(1, m.hash), Repeated(items));
    i := end;
    var k := |m.logs|;
    NoItems();
    OverwriteNothing(a[..], end);
    assert items[k..] == [];
    while k > 0
      invariant 0 <= k <= |m.logs|
      invariant i == end - |EncodeAll(Repeated(items[k..]))| && |EncodeAll(Repeated(items[k..]))| <= end
      invariant a[..] == Overwrite(old(a[..]), end, EncodeAll(Repeated(items[k..])))
    {
      k := k - 1;
      ItemsHead(items, k);
      ItemsFit(items, k);
      i := PrependLog(a, i, m.logs[k]);
      OverwriteTwice(old(a[..]), end, EncodeAll(Repeated(items[k + 1..])), Encode(BytesRecord(2, items[k])));
    }
    assert items[0..] == items;
    PayloadFits(1, m.hash);
    i := PrependBytesPart(a, i, 1, m.hash);
    OverwriteTwice(old(a[..]), end, EncodeAll(Repeated(items)), EncodeAll(BytesPart(1, m.hash)));
  }

  method PrependLog(a: array<byte>, i: nat, log: WireLog) returns (i': nat)
    requires |Encode(BytesRecord(2, EncodeLog(log)))| <= i <= a.Length && i < U64
    modifies a
    ensures i' == i - |Encode(BytesRecord(2, EncodeLog(log)))|
    ensures a[..] == Overwrite(old(a[..]), i, Encode(BytesRecord(2, EncodeLog(log))))
  {
    hide Varint, Encode, EncodeAll, EncodeLog, Overwrite;
    ghost var bytes := EncodeLog(log);
    BytesSize(2, bytes);
    i' := MarshalLogTo(a, i, log);
    var size := i - i';
    i' := PrependHeader(a, i', 2, size);
    OverwriteTwice(old(a[..]), i, bytes, [(8 * 2 + 2) as byte] + Varint(|bytes|));
  }

  /** `Log.Marshal`: the buffer of the computed size is filled exactly. */
  method MarshalLog(m: WireLog) returns (data: Bytes)
    requires |EncodeLog(m)| < U64
    ensures data == EncodeLog(m)
  {
    hide EncodeLog;
    var size := LogSize(m);
    var a := new byte[size];
    var i := MarshalLogTo(a, size, m);
    assert a[..] == EncodeLog(m);
    data := a[i..];
  }

  /** `TransactionLogs.Size`. */
  method LogsSize(m: TransactionLogs) returns (n: nat)
    ensures n == |EncodeLogs(m)|
  {
    hide VarintSize, Encode, EncodeAll, EncodeLog, EncodeEach, BytesPart, Repeated, BytesPartSize;
    ghost var items := EncodeEach(m.logs);
    EncodeConcat(BytesPart(1, m.hash), Repeated(items));
    PartSizes(1, m.hash, 0);
    n := BytesPartSize(m.hash);
    NoItems();
    for k := 0 to |m.logs|
      invariant n == BytesPartSize(m.hash) + |EncodeAll(Repeated(items[..k]))|
    {
      var l := LogSize(m.logs[k]);
      ItemPushed(items, k);
      BytesSize(2, items[k]);
      EncodeSingle(BytesRecord(2, items[k]));
      n := n + 1 + l + VarintSize(l);
    }
    assert items[..|items|] == items;
  }

  /** `TransactionLogs.Marshal`. */
  method MarshalLogs(m: TransactionLogs) returns (data: Bytes)
    requires |EncodeLogs(m)| < U64
    ensures data == EncodeLogs(m)
  {
    hide EncodeLogs;
    var size := LogsSize(m);
    var a := new byte[size];
    var i := MarshalLogsTo(a, size, m);
    assert a[..] == EncodeLogs(m);
    data := a[i..];
  }
}
