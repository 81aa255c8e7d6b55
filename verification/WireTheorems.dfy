/** Reading undoes writing, for every sequence of records and every message type. */
module WireTheorems {
  import opened EvmTypes
  import opened Wire

  // ---- varints ----

  /** How many values the groups from the k-th on can hold. */
  function Room(k: nat): nat
    requires k <= 9
    decreases 9 - k
  {
    if k == 9 then 2 else 128 * Room(k + 1)
  }

  lemma RoomAtStart()
    ensures Room(0) == U64
  {
    assert Room(7) == 0x8000;
    assert Room(5) == 0x2000_0000;
    assert Room(3) == 0x800_0000_0000;
    assert Room(1) == 0x200_0000_0000_0000;
  }

  lemma {:induction false} ReadGroupsOfVarint(v: nat, rest: Bytes, k: nat)
    requires k <= 9 && v < Room(k)
    ensures ReadGroups(Varint(v) + rest, k) == Ok(Read(v, |Varint(v)|))
    decreases 9 - k
  {
    var s := Varint(v) + rest;
    if v >= 128 {
      ReadGroupsOfVarint(v / 128, rest, k + 1);
      assert s[1..] == Varint(v / 128) + rest;
    }
  }

  /** A varint is read back with its length, whatever follows it. */
  lemma ReadOfVarint(v: nat, rest: Bytes)
    requires v < U64
    ensures ReadVarint(Varint(v) + rest) == Ok(Read(v, |Varint(v)|))
  {
    RoomAtStart();
    ReadGroupsOfVarint(v, rest, 0);
  }

  /** Whatever is read fits 64 bits. */
  lemma {:induction false} GroupsBounded(s: Bytes, k: nat)
    requires k <= 9 && ReadGroups(s, k).Ok?
    ensures ReadGroups(s, k).value.value < Room(k)
    decreases |s|
  {
    if s[0] >= 128 {
      if k == 9 {
        assert false;
      } else {
        GroupsBounded(s[1..], k + 1);
      }
    } else if k < 9 {
      assert Room(k + 1) >= 1 by { RoomPositive(k + 1); }
    }
  }

  lemma {:induction false} RoomPositive(k: nat)
    requires k <= 9
    ensures Room(k) >= 2
    decreases 9 - k
  {
    if k < 9 {
      RoomPositive(k + 1);
    }
  }

  lemma VarintBounded(s: Bytes)
    ensures ReadVarint(s).Ok? ==> ReadVarint(s).value.value < U64
  {
    RoomAtStart();
    if ReadVarint(s).Ok? {
      GroupsBounded(s, 0);
    }
  }

  // ---- the size of a varint ----

  /** `bits.Len64`. */
  function BitLength(v: nat): nat {
    if v == 0 then 0 else 1 + BitLength(v / 2)
  }

  /** `sovEvm`. */
  function VarintSize(v: nat): nat {
    (BitLength(if v % 2 == 0 then v + 1 else v) + 6) / 7
  }

  lemma Quarter(v: nat)
    requires v >= 4
    ensures BitLength(v) == 2 + BitLength(v / 4)
  {
    assert v / 2 / 2 == v / 4;
  }

  lemma BitLengthStep(v: nat)
    requires v >= 128
    ensures BitLength(v) == 7 + BitLength(v / 128)
  {
    hide BitLength;
    Quarter(v);
    Quarter(v / 4);
    Quarter(v / 16);
    Half(v / 64);
    assert v / 4 / 4 == v / 16 && v / 16 / 4 == v / 64 && v / 64 / 2 == v / 128;
  }

  lemma Half(v: nat)
    requires v >= 1
    ensures BitLength(v) == 1 + BitLength(v / 2)
  {
  }

  lemma SmallBitLength(v: nat)
    requires 1 <= v < 128
    ensures 1 <= BitLength(v) <= 7
  {
    assert v / 64 <= 1;
    assert BitLength(v / 64) <= 1;
    assert BitLength(v / 32) <= 2;
    assert BitLength(v / 16) <= 3;
    assert BitLength(v / 8) <= 4;
    assert BitLength(v / 4) <= 5;
    assert BitLength(v / 2) <= 6;
  }

  lemma SameBitLength(v: nat)
    requires v > 0 && v % 2 == 0
    ensures BitLength(v + 1) == BitLength(v)
  {
    assert (v + 1) / 2 == v / 2;
  }

  /** The number of bytes computed from the bit length is the number of bytes written. */
  lemma {:induction false} VarintSizeIs(v: nat)
    ensures VarintSize(v) == |Varint(v)|
  {
    var odd := if v % 2 == 0 then v + 1 else v;
    if v < 128 {
      SmallBitLength(odd);
    } else {
      VarintSizeIs(v / 128);
      BitLengthStep(odd);
      assert odd / 128 == v / 128;
      if v / 128 % 2 == 0 {
        SameBitLength(v / 128);
      }
    }
  }

  // ---- skipping a record ----

  lemma SignedSmall(v: int)
    requires 0 <= v < I64
    ensures Signed(v) == v
  {
  }

  /** The record r stands in s at position i. */
  ghost predicate At(s: Bytes, i: nat, part: Bytes) {
    i + |part| <= |s| && s[i..i + |part|] == part
  }

  lemma AtParts(s: Bytes, i: nat, a: Bytes, b: Bytes)
    requires At(s, i, a + b)
    ensures At(s, i, a) && At(s, i + |a|, b)
  {
    var both := s[i..i + |a| + |b|];
    assert both[..|a|] == s[i..i + |a|];
    assert both[|a|..] == s[i + |a|..i + |a| + |b|];
  }

  lemma VarintAt(s: Bytes, i: nat, v: nat)
    requires v < U64 && At(s, i, Varint(v))
    ensures ReadVarint(s[i..]) == Ok(Read(v, |Varint(v)|))
  {
    ReadOfVarint(v, s[i + |Varint(v)|..]);
    assert s[i..] == Varint(v) + s[i + |Varint(v)|..];
  }

  /** A tag is read back as its field number and wire type. */
  lemma TagAt(s: Bytes, i: nat, field: nat, wireType: nat)
    requires 1 <= field < 0x2000_0000 && wireType < 8 && At(s, i, Tag(field, wireType))
    ensures var tag := ReadVarint(s[i..]);
            && tag.Ok? && tag.value.length == |Tag(field, wireType)|
            && tag.value.value % 8 == wireType && Int32(tag.value.value / 8) == field
  {
    VarintAt(s, i, 8 * field + wireType);
  }

  function Body(r: Record): Bytes {
    match r
    case VarintRecord(_, value) => Varint(value)
    case BytesRecord(_, bytes) => Varint(|bytes|) + bytes
    case GroupRecord(field, records) => EncodeAll(records) + Tag(field, 4)
    case Fixed64Record(_, bytes) => bytes
    case Fixed32Record(_, bytes) => bytes
  }

  lemma EncodeIs(r: Record)
    ensures Encode(r) == Tag(r.field, r.WireType()) + Body(r)
  {
  }

  /** The end of a payload is found, except that of a group, which the caller goes on to read. */
  lemma PayloadEndOf(s: Bytes, j: nat, r: Record)
    requires |s| < I64 && r.WellFormed() && !r.GroupRecord? && At(s, j, Body(r))
    ensures PayloadEnd(s, j, r.WireType()) == Ok(j + |Body(r)|)
  {
    hide ReadVarint, Signed;
    match r
    case VarintRecord(_, value) => VarintAt(s, j, value);
    case BytesRecord(_, bytes) =>
      AtParts(s, j, Varint(|bytes|), bytes);
      VarintAt(s, j, |bytes|);
      SignedSmall(|bytes|);
      SignedSmall(j + |Varint(|bytes|)| + |bytes|);
    case Fixed64Record(_, _) =>
    case Fixed32Record(_, _) =>
  }

  /**
   * Skipping passes over exactly one record: at depth zero it stops behind it, and inside a group
   * it goes on from there.
   */
  lemma {:induction false} SkipRecord(s: Bytes, i: nat, depth: nat, r: Record)
    requires |s| < I64 && r.WellFormed() && At(s, i, Encode(r))
    ensures SkipFrom(s, i, depth) == if depth == 0 then Ok(i + |Encode(r)|) else SkipFrom(s, i + |Encode(r)|, depth)
    decreases r, 1
  {
    hide ReadVarint, Tag, Encode, EncodeAll, At;
    EncodeIs(r);
    var tag, body := Tag(r.field, r.WireType()), Body(r);
    AtParts(s, i, tag, body);
    TagAt(s, i, r.field, r.WireType());
    AtInRange(s, i, Encode(r));
    NotEmpty(r);
    if r.GroupRecord? {
      SkipGroup(s, i + |tag|, depth, r);
      GroupEnds(s, i + |tag|);
    } else {
      PayloadEndOf(s, i + |tag|, r);
    }
  }

  /** From behind a start-group tag, skipping passes over the records of the group and its end tag. */
  lemma {:induction false} SkipGroup(s: Bytes, j: nat, depth: nat, r: Record)
    requires |s| < I64 && r.WellFormed() && r.GroupRecord? && At(s, j, Body(r))
    ensures SkipFrom(s, j, depth + 1) == if depth == 0 then Ok(j + |Body(r)|) else SkipFrom(s, j + |Body(r)|, depth)
    decreases r, 0
  {
    hide ReadVarint, Tag, EncodeAll, At, PayloadEnd;
    var inner, close := EncodeAll(r.records), Tag(r.field, 4);
    AtParts(s, j, inner, close);
    SkipRecords(s, j, depth + 1, r.records);
    var k := j + |inner|;
    TagAt(s, k, r.field, 4);
    NotEmpty(r);
    AtInRange(s, k, close);
    GroupEnds(s, k + |close|);
  }

  lemma AtInRange(s: Bytes, i: nat, part: Bytes)
    requires At(s, i, part)
    ensures i + |part| <= |s|
  {
  }

  lemma NotEmpty(r: Record)
    ensures |Encode(r)| > 0
    ensures |Tag(r.field, 4)| > 0
  {
  }

  lemma GroupEnds(s: Bytes, j: nat)
    requires j <= |s|
    ensures PayloadEnd(s, j, 3) == PayloadEnd(s, j, 4) == Ok(j)
  {
  }

  lemma {:induction false} SkipRecords(s: Bytes, i: nat, depth: nat, rs: seq<Record>)
    requires |s| < I64 && depth > 0 && At(s, i, EncodeAll(rs))
    requires AllWellFormed(rs)
    ensures SkipFrom(s, i, depth) == SkipFrom(s, i + |EncodeAll(rs)|, depth)
    decreases rs
  {
    hide SkipFrom, At, Encode;
    if rs != [] {
      AtParts(s, i, Encode(rs[0]), EncodeAll(rs[1..]));
      SkipRecord(s, i, depth, rs[0]);
      SkipRecords(s, i + |Encode(rs[0])|, depth, rs[1..]);
    }
  }

  // ---- reading a record ----

  lemma ReadPayloadOf(s: Bytes, j: nat, r: Record)
    requires |s| < I64 && r.WellFormed() && (r.VarintRecord? || r.BytesRecord?) && At(s, j, Body(r))
    ensures ReadPayload(s, j, r.WireType()) == Ok(Read(PayloadOf(r), |Body(r)|))
  {
    hide ReadVarint, Signed;
    if r.VarintRecord? {
      VarintAt(s, j, r.value);
    } else {
      var n := |r.bytes|;
      AtParts(s, j, Varint(n), r.bytes);
      VarintAt(s, j, n);
      SignedSmall(n);
      SignedSmall(j + |Varint(n)| + n);
    }
  }

  /** Reading a field does to the message what its record means. */
  lemma ReadRecord<M(!new)>(schema: Schema<M>, m: M, s: Bytes, i: nat, r: Record)
    requires Sound(schema) && r.WellFormed() && |s| < I64 && At(s, i, Encode(r))
    ensures ReadField(schema, m, s, i)
         == var m' := Apply(schema, m, r); if m'.Err? then Err(m'.error) else Ok(Step(m'.value, i + |Encode(r)|))
  {
    hide ReadVarint, ReadPayload, SkipField, Tag, Encode, At;
    EncodeIs(r);
    var tag := Tag(r.field, r.WireType());
    AtParts(s, i, tag, Body(r));
    TagAt(s, i, r.field, r.WireType());
    if schema.wireType(r.field).None? {
      SkipFieldOf(s, i, r);
    } else if r.WireType() == schema.wireType(r.field).value {
      ReadPayloadOf(s, i + |tag|, r);
    }
  }

  lemma SkipFieldOf(s: Bytes, i: nat, r: Record)
    requires |s| < I64 && r.WellFormed() && At(s, i, Encode(r))
    ensures SkipField(s, i) == Ok(i + |Encode(r)|)
  {
    hide SkipFrom, Encode;
    var n := |Encode(r)|;
    assert s[i..][..n] == s[i..i + n];
    SkipRecord(s[i..], 0, 0, r);
    NotEmpty(r);
    SignedSmall(i + n);
  }

  /** Reading goes through a sequence of records as they mean, and on from behind them. */
  lemma {:induction false} UnmarshalThrough<M(!new)>(schema: Schema<M>, m: M, s: Bytes, i: nat, rs: seq<Record>)
    requires Sound(schema) && |s| < I64 && At(s, i, EncodeAll(rs)) && AllWellFormed(rs)
    ensures UnmarshalFrom(schema, m, s, i)
         == var m' := ApplyAll(schema, m, rs);
            if m'.Err? then m' else UnmarshalFrom(schema, m'.value, s, i + |EncodeAll(rs)|)
    decreases |rs|
  {
    hide ReadField, Apply, Encode, Sound, At;
    AtInRange(s, i, EncodeAll(rs));
    if rs != [] {
      var head, rest := Encode(rs[0]), EncodeAll(rs[1..]);
      NotEmpty(rs[0]);
      AtParts(s, i, head, rest);
      ReadRecord(schema, m, s, i, rs[0]);
      var m' := Apply(schema, m, rs[0]);
      if m'.Ok? {
        UnmarshalThrough(schema, m'.value, s, i + |head|, rs[1..]);
      }
    }
  }

  /**
   * The bytes of any sequence of records are read as the records mean, one after the other: the last value of
   * a field wins, repeated fields accumulate, unknown fields (groups included) are ignored wherever they stand.
   */
  lemma UnmarshalRecords<M(!new)>(schema: Schema<M>, m: M, rs: seq<Record>)
    requires Sound(schema) && |EncodeAll(rs)| < I64
    requires AllWellFormed(rs)
    ensures Unmarshal(schema, m, EncodeAll(rs)) == ApplyAll(schema, m, rs)
  {
    hide EncodeAll, Sound, ApplyAll;
    var s := EncodeAll(rs);
    assert s[0..|s|] == s;
    UnmarshalThrough(schema, m, s, 0, rs);
  }
}
