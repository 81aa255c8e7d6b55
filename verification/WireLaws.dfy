/** The encoding itself, byte by byte, and what reading does with data that is malformed or cut short. */
module WireLaws {
  import opened EvmTypes
  import opened Wire
  import opened WireTheorems
  import opened WireLogs
  import opened WireWriters

  // ---- varints ----

  /** The number of bytes at the beginning that say that more follows. */
  function Leading(s: Bytes): (k: nat)
    ensures k <= |s|
  {
    if s == [] || s[0] < 128 then 0 else 1 + Leading(s[1..])
  }

  /** The number that the lower seven bits of the first n bytes make, least significant first. */
  function GroupSum(s: Bytes, n: nat): nat
    requires n <= |s|
  {
    if n == 0 then 0 else s[0] as int % 128 + 128 * GroupSum(s[1..], n - 1)
  }

  lemma ScaledMod(low: nat, x: nat, r: nat)
    requires low < 128 && r > 0
    ensures (low + 128 * x) % (128 * r) == low + 128 * (x % r)
  {
    var q, rem := x / r, x % r;
    assert x == r * q + rem;
    assert 128 * x == (128 * r) * q + 128 * rem;
    ModUnique(low + 128 * x, 128 * r, q, low + 128 * rem);
  }

  lemma ModUnique(n: nat, d: nat, q: nat, r: nat)
    requires n == d * q + r && r < d
    ensures n % d == r
  {
    var q', r' := n / d, n % d;
    assert n == d * q' + r';
    assert d * q - d * q' == d * (q - q');
    if q > q' {
      Least(d, q - q');
    } else if q < q' {
      assert d * (q - q') == -(d * (q' - q));
      Least(d, q' - q);
    }
  }

  lemma Least(d: nat, k: nat)
    requires k >= 1
    ensures d * k >= d
  {
    assert d * k == d * (k - 1) + d;
  }

  lemma {:induction false} GroupsLaw(s: Bytes, j: nat)
    requires j <= 9
    ensures var k := Leading(s);
            var r := ReadGroups(s, j);
            && (j + k >= 10 ==> r == Err(IntOverflow))
            && (j + k < 10 && k == |s| ==> r == Err(UnexpectedEOF))
            && (j + k < 10 && k < |s| ==> Room(j) > 0 && r == Ok(Read(GroupSum(s, k + 1) % Room(j), k + 1)))
    decreases |s|
  {
    RoomPositive(j);
    if s != [] {
      var low := s[0] as int % 128;
      if s[0] < 128 {
        assert GroupSum(s[1..], 0) == 0;
        if j < 9 {
          RoomPositive(j + 1);
          ScaledMod(low, 0, Room(j + 1));
        }
      } else if j < 9 {
        GroupsLaw(s[1..], j + 1);
        RoomPositive(j + 1);
        var k := Leading(s[1..]);
        if k < |s| - 1 {
          ScaledMod(low, GroupSum(s[1..], k + 1), Room(j + 1));
        }
      }
    }
  }

  /**
   * What any bytes read as: after at most nine bytes with the top bit, the number of all groups modulo 2^64; an overflow
   * if ten bytes have it; the end of the data if it comes before a byte without it.
   */
  lemma ReadVarintLaw(s: Bytes)
    ensures var k := Leading(s);
            && (k >= 10 ==> ReadVarint(s) == Err(IntOverflow))
            && (k < 10 && k == |s| ==> ReadVarint(s) == Err(UnexpectedEOF))
            && (k < 10 && k < |s| ==> ReadVarint(s) == Ok(Read(GroupSum(s, k + 1) % U64, k + 1)))
  {
    RoomAtStart();
    GroupsLaw(s, 0);
  }

  /** A number is written as its base-128 groups, without superfluous ones, the top bit on all but the last. */
  lemma {:induction false} VarintLaw(v: nat)
    ensures var s := Varint(v);
            && Leading(s) == |s| - 1
            && GroupSum(s, |s|) == v
            && (|s| > 1 ==> s[|s| - 1] != 0)
  {
    var s := Varint(v);
    if v < 128 {
      assert GroupSum(s[1..], 0) == 0;
    } else {
      VarintLaw(v / 128);
      assert s[1..] == Varint(v / 128);
      assert s[|s| - 1] == s[1..][|s| - 2];
      if v / 128 < 128 {
        assert Varint(v / 128) == [(v / 128) as byte];
      }
    }
  }

  // ---- the bytes of a log ----

  /** A length-delimited field under a one-byte tag, left out when empty. */
  function TaggedBytes(tag: byte, b: Bytes): Bytes {
    if b == [] then [] else [tag] + Varint(|b|) + b
  }

  /** A varint field under a one-byte tag, left out when zero. */
  function TaggedNumber(tag: byte, v: uint64): Bytes {
    if v == 0 then [] else [tag] + Varint(v)
  }

  /** Each item under the same tag, empty ones included. */
  function TaggedItems(tag: byte, items: seq<Bytes>): Bytes {
    if items == [] then [] else [tag] + Varint(|items[0]|) + items[0] + TaggedItems(tag, items[1..])
  }

  lemma BytesAre(field: nat, b: Bytes)
    requires 1 <= field < 16
    ensures EncodeAll(BytesPart(field, b)) == TaggedBytes((8 * field + 2) as byte, b)
  {
    if b != [] {
      BytesSize(field, b);
      EncodeSingle(BytesRecord(field, b));
    }
  }

  lemma NumberIs(field: nat, v: uint64)
    requires 1 <= field < 16
    ensures EncodeAll(NumberPart(field, v)) == TaggedNumber((8 * field) as byte, v)
  {
    if v != 0 {
      NumberSize(field, v);
      EncodeSingle(VarintRecord(field, v));
    }
  }

  lemma {:induction false} ItemsAre(items: seq<Bytes>)
    ensures EncodeAll(Repeated(items)) == TaggedItems(0x12, items)
  {
    hide Encode, EncodeAll;
    if items == [] {
      NoItems();
    } else {
      ItemsHead(items, 0);
      assert items[0..] == items;
      ItemsAre(items[1..]);
      BytesSize(2, items[0]);
    }
  }

  /** The bytes of a log: the tags and the order of the generated code. */
  lemma LogBytes(m: WireLog)
    ensures EncodeLog(m)
         == TaggedBytes(0x0a, m.address) + TaggedItems(0x12, m.topics) + TaggedBytes(0x1a, m.data)
            + TaggedNumber(0x20, m.blockNumber) + TaggedBytes(0x2a, m.txHash) + TaggedNumber(0x30, m.txIndex)
            + TaggedBytes(0x3a, m.blockHash) + TaggedNumber(0x40, m.index) + if m.removed then [0x48, 1] else []
  {
    hide EncodeAll, BytesPart, NumberPart, Repeated, TaggedBytes, TaggedNumber, TaggedItems;
    hide From8, From7, From6, From5, From4, From3, From2;
    Suffixes(m);
    BytesAre(1, m.address);
    ItemsAre(m.topics);
    BytesAre(3, m.data);
    NumberIs(4, m.blockNumber);
    BytesAre(5, m.txHash);
    NumberIs(6, m.txIndex);
    BytesAre(7, m.blockHash);
    NumberIs(8, m.index);
    NumberIs(9, if m.removed then 1 else 0);
    RemovedBytes(m.removed);
  }

  lemma RemovedBytes(removed: bool)
    ensures TaggedNumber(0x48, if removed then 1 else 0) == if removed then [0x48, 1] else []
  {
  }

  /** The bytes of a transaction's logs. */
  lemma LogsBytes(m: TransactionLogs)
    ensures EncodeLogs(m) == TaggedBytes(0x0a, m.hash) + TaggedItems(0x12, EncodeEach(m.logs))
  {
    hide EncodeAll, BytesPart, Repeated;
    EncodeConcat(BytesPart(1, m.hash), Repeated(EncodeEach(m.logs)));
    BytesAre(1, m.hash);
    ItemsAre(EncodeEach(m.logs));
  }

  // ---- data that is cut short ----

  /** From position i on the data is a proper beginning of the part. */
  ghost predicate CutAt(s: Bytes, i: nat, part: Bytes) {
    i <= |s| < i + |part| && s[i..] == part[..|s| - i]
  }

  /** A cut in a sequence of two parts lies in the first, or in the second behind the first. */
  lemma CutParts(s: Bytes, i: nat, a: Bytes, b: Bytes)
    requires CutAt(s, i, a + b)
    ensures CutAt(s, i, a) || (At(s, i, a) && CutAt(s, i + |a|, b))
  {
    var n := |s| - i;
    if n < |a| {
      assert (a + b)[..n] == a[..n];
    } else {
      assert s[i..i + |a|] == s[i..][..|a|] == (a + b)[..n][..|a|] == a;
      assert s[i + |a|..] == s[i..][|a|..] == (a + b)[..n][|a|..] == b[..n - |a|];
    }
  }

  lemma {:induction false} LeadingOfPrefix(s: Bytes, n: nat)
    requires n <= Leading(s)
    ensures Leading(s[..n]) == n
  {
    if n > 0 {
      LeadingOfPrefix(s[1..], n - 1);
      assert s[..n][1..] == s[1..][..n - 1];
    }
  }

  lemma {:induction false} VarintShort(v: nat, j: nat)
    requires j <= 9 && v < Room(j)
    ensures |Varint(v)| <= 10 - j
    decreases 9 - j
  {
    if v >= 128 {
      VarintShort(v / 128, j + 1);
    }
  }

  lemma VarintCut(s: Bytes, i: nat, v: nat)
    requires v < U64 && CutAt(s, i, Varint(v))
    ensures ReadVarint(s[i..]) == Err(UnexpectedEOF)
  {
    RoomAtStart();
    VarintShort(v, 0);
    VarintLaw(v);
    LeadingOfPrefix(Varint(v), |s| - i);
    ReadVarintLaw(s[i..]);
  }

  /** The field of a record is left unread when the data ends inside its payload. */
  lemma PayloadCut(s: Bytes, j: nat, r: Record)
    requires r.WellFormed() && !r.GroupRecord? && j + |Body(r)| < I64 && CutAt(s, j, Body(r))
    ensures var end := PayloadEnd(s, j, r.WireType()); end == Err(UnexpectedEOF) || end == Ok(j + |Body(r)|)
    ensures r.VarintRecord? || r.BytesRecord? ==> ReadPayload(s, j, r.WireType()) == Err(UnexpectedEOF)
  {
    hide ReadVarint, Signed, Varint;
    match r
    case VarintRecord(_, value) => VarintCut(s, j, value);
    case BytesRecord(_, bytes) =>
      var n := |bytes|;
      CutParts(s, j, Varint(n), bytes);
      if CutAt(s, j, Varint(n)) {
        VarintCut(s, j, n);
      } else {
        VarintAt(s, j, n);
        SignedSmall(n);
        SignedSmall(j + |Varint(n)| + n);
      }
    case Fixed64Record(_, _) =>
    case Fixed32Record(_, _) =>
  }

  /** Skipping a record that is cut short fails, inside a group at once, outside by ending beyond the data. */
  lemma {:induction false} SkipCut(s: Bytes, i: nat, depth: nat, r: Record)
    requires r.WellFormed() && i + |Encode(r)| < I64 && CutAt(s, i, Encode(r))
    ensures depth > 0 ==> SkipFrom(s, i, depth) == Err(UnexpectedEOF)
    ensures SkipFrom(s, i, depth) == Err(UnexpectedEOF) || SkipFrom(s, i, depth) == Ok(i + |Encode(r)|)
    decreases r, 1
  {
    hide ReadVarint, Tag, Encode, EncodeAll, At, CutAt, Body;
    EncodeIs(r);
    var tag := Tag(r.field, r.WireType());
    CutInRange(s, i, Encode(r));
    if i < |s| {
      CutParts(s, i, tag, Body(r));
      if CutAt(s, i, tag) {
        TagCut(s, i, r.field, r.WireType());
      } else {
        TagAt(s, i, r.field, r.WireType());
        var j := i + |tag|;
        CutInRange(s, j, Body(r));
        if r.GroupRecord? {
          GroupCut(s, j, depth, r);
          GroupEnds(s, j);
        } else {
          PayloadCut(s, j, r);
          BeyondEnd(s);
        }
      }
    }
  }

  lemma BeyondEnd(s: Bytes)
    ensures forall end: nat, depth: nat :: end >= |s| ==> SkipFrom(s, end, depth) == Err(UnexpectedEOF)
  {
  }

  lemma CutInRange(s: Bytes, i: nat, part: Bytes)
    requires CutAt(s, i, part)
    ensures i <= |s| < i + |part|
  {
  }

  lemma TagCut(s: Bytes, i: nat, field: nat, wireType: nat)
    requires 1 <= field < 0x2000_0000 && wireType < 8 && CutAt(s, i, Tag(field, wireType))
    ensures ReadVarint(s[i..]) == Err(UnexpectedEOF)
  {
    VarintCut(s, i, 8 * field + wireType);
  }

  lemma {:induction false} GroupCut(s: Bytes, j: nat, depth: nat, r: Record)
    requires r.WellFormed() && r.GroupRecord? && j + |Body(r)| < I64 && CutAt(s, j, Body(r))
    ensures SkipFrom(s, j, depth + 1) == Err(UnexpectedEOF)
    decreases r, 0
  {
    hide SkipFrom, ReadVarint, Tag, EncodeAll, At, CutAt;
    var inner, close := EncodeAll(r.records), Tag(r.field, 4);
    CutParts(s, j, inner, close);
    if CutAt(s, j, inner) {
      RecordsCut(s, j, depth + 1, r.records);
    } else {
      CutInRange(s, j + |inner|, close);
      SkipRecords(s, j, depth + 1, r.records);
      TagCut(s, j + |inner|, r.field, 4);
      TagLost(s, j + |inner|, depth + 1);
    }
  }

  lemma TagLost(s: Bytes, i: nat, depth: nat)
    requires i <= |s| && ReadVarint(s[i..]) == Err(UnexpectedEOF)
    ensures SkipFrom(s, i, depth) == Err(UnexpectedEOF)
  {
  }

  lemma {:induction false} RecordsCut(s: Bytes, i: nat, depth: nat, rs: seq<Record>)
    requires depth > 0 && AllWellFormed(rs) && i + |EncodeAll(rs)| < I64 && CutAt(s, i, EncodeAll(rs))
    ensures SkipFrom(s, i, depth) == Err(UnexpectedEOF)
    decreases rs
  {
    hide SkipFrom, At, CutAt, Encode;
    CutInRange(s, i, EncodeAll(rs));
    var head, rest := Encode(rs[0]), EncodeAll(rs[1..]);
    CutParts(s, i, head, rest);
    if CutAt(s, i, head) {
      SkipCut(s, i, depth, rs[0]);
    } else {
      CutInRange(s, i + |head|, rest);
      SkipRecord(s, i, depth, rs[0]);
      RecordsCut(s, i + |head|, depth, rs[1..]);
    }
  }

  /** The record is unknown to the message type or has the wire type it should have. */
  predicate Fits<M>(schema: Schema<M>, r: Record) {
    schema.wireType(r.field).Some? ==> r.WireType() == schema.wireType(r.field).value
  }

  lemma FieldCut<M(!new)>(schema: Schema<M>, m: M, s: Bytes, i: nat, r: Record)
    requires Sound(schema) && r.WellFormed() && Fits(schema, r) && i < |s| && i + |Encode(r)| < I64 && CutAt(s, i, Encode(r))
    ensures ReadField(schema, m, s, i) == Err(UnexpectedEOF)
  {
    hide ReadVarint, ReadPayload, SkipField, Tag, Encode, At, CutAt, Body;
    EncodeIs(r);
    var tag := Tag(r.field, r.WireType());
    CutParts(s, i, tag, Body(r));
    if CutAt(s, i, tag) {
      TagCut(s, i, r.field, r.WireType());
    } else {
      TagAt(s, i, r.field, r.WireType());
      CutInRange(s, i + |tag|, Body(r));
      if schema.wireType(r.field).Some? {
        PayloadCut(s, i + |tag|, r);
      } else {
        FieldSkipCut(s, i, r);
      }
    }
  }

  lemma FieldSkipCut(s: Bytes, i: nat, r: Record)
    requires r.WellFormed() && i < |s| && i + |Encode(r)| < I64 && CutAt(s, i, Encode(r))
    ensures SkipField(s, i) == Err(UnexpectedEOF)
  {
    hide SkipFrom, Encode;
    assert s[i..][0..] == s[i..];
    SkipCut(s[i..], 0, 0, r);
    SignedSmall(i + |Encode(r)|);
  }

  /**
   * Data that ends inside a record is refused as such: complete records in front of it are read, and the message is an
   * unexpected end of the data, wherever in the tag, the length, the payload or a nested group the cut is.
   */
  lemma UnmarshalCut<M(!new)>(schema: Schema<M>, m: M, rs: seq<Record>, r: Record, n: nat)
    requires Sound(schema) && AllWellFormed(rs) && r.WellFormed() && Fits(schema, r)
    requires 0 < n < |Encode(r)| && |EncodeAll(rs)| + |Encode(r)| < I64
    ensures Unmarshal(schema, m, EncodeAll(rs) + Encode(r)[..n])
         == var m' := ApplyAll(schema, m, rs); if m'.Err? then m' else Err(UnexpectedEOF)
  {
    hide ReadField, Encode, EncodeAll, Sound, ApplyAll, Fits;
    var done := EncodeAll(rs);
    var s := done + Encode(r)[..n];
    assert s[0..|done|] == done && s[|done|..] == Encode(r)[..n];
    UnmarshalThrough(schema, m, s, 0, rs);
    var m' := ApplyAll(schema, m, rs);
    if m'.Ok? {
      FieldCut(schema, m'.value, s, |done|, r);
    }
  }

  /** In particular a log cut short anywhere inside a field is an unexpected end of the data. */
  lemma LogCut(m: WireLog, k: nat, n: nat)
    requires k < |LogRecords(m)| && 0 < n < |Encode(LogRecords(m)[k])| && |EncodeLog(m)| < I64
    ensures Unmarshal(LOG, EMPTY_LOG, EncodeAll(LogRecords(m)[..k]) + Encode(LogRecords(m)[k])[..n])
         == Err(UnexpectedEOF)
  {
    hide EncodeAll, Encode, LogRecords, Unmarshal, ApplyAll, Sound;
    var rs := LogRecords(m);
    SchemasSound();
    LogWellFormed(m);
    LogFits(m, k);
    EncodeConcat(rs[..k], rs[k..]);
    assert rs == rs[..k] + rs[k..];
    RecordsOfLog(m);
    ApplyConcat(LOG, EMPTY_LOG, rs[..k], rs[k..]);
    EncodeConcat([rs[k]], rs[k + 1..]);
    assert rs[k..] == [rs[k]] + rs[k + 1..];
    EncodeSingle(rs[k]);
    UnmarshalCut(LOG, EMPTY_LOG, rs[..k], rs[k], n);
  }

  lemma LogFits(m: WireLog, k: nat)
    requires k < |LogRecords(m)|
    ensures Fits(LOG, LogRecords(m)[k])
  {
    RepeatedFit(m.topics);
    hide Repeated;
    assert LogRecords(m)[k] in LogRecords(m);
  }

  lemma {:induction false} RepeatedFit(items: seq<Bytes>)
    ensures forall r :: r in Repeated(items) ==> r.BytesRecord? && r.field == 2
  {
    if items != [] {
      RepeatedFit(items[..|items| - 1]);
    }
  }

  // ---- data that is malformed ----

  /**
   * What is refused once a tag is read: end-group tags, field numbers that are not positive as 32-bit numbers, known
   * fields of another wire type, wire types that do not exist, and payloads whose length is 2^63 or more.
   */
  lemma Refused<M(!new)>(schema: Schema<M>, m: M, s: Bytes, i: nat)
    requires Sound(schema) && i <= |s| && ReadVarint(s[i..]).Ok?
    ensures var tag := ReadVarint(s[i..]).value;
            var wireType, low := tag.value % 8, tag.value / 8 % 0x1_0000_0000;
            var r := ReadField(schema, m, s, i);
            && (wireType == 4 ==> r == Err(EndGroup))
            && (wireType != 4 && (low == 0 || low >= 0x8000_0000) ==> r == Err(IllegalTag))
            && (wireType != 4 && 0 < low < 0x8000_0000 && schema.wireType(low).Some? && schema.wireType(low).value != wireType
                ==> r == Err(WrongWireType))
            && (wireType >= 6 && 0 < low < 0x8000_0000 && schema.wireType(low).None? ==> r == Err(IllegalWireType))
            && (wireType == 2 && 0 < low < 0x8000_0000 && schema.wireType(low) == Some(2)
                && ReadVarint(s[i + tag.length..]).Ok? && ReadVarint(s[i + tag.length..]).value.value >= I64
                ==> r == Err(InvalidLength))
  {
    hide ReadVarint;
    var tag := ReadVarint(s[i..]).value;
    VarintBounded(s[i + tag.length..]);
    assert s[i..][0..] == s[i..];
    VarintEmpty();
  }

  lemma VarintEmpty()
    ensures ReadVarint([]) == Err(UnexpectedEOF)
  {
  }
}
