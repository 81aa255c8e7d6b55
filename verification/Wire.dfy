/**
 * The wire format of Protocol Buffers as the generated code reads it: base-128 varints, tags,
 * length-delimited payloads, and the skipping of fields the reader does not know.
 */
module Wire {
  import opened EvmTypes

  datatype Error =
    | IntOverflow
    | UnexpectedEOF
    | InvalidLength
    | EndGroup
    | UnexpectedEndOfGroup
    | IllegalTag
    | WrongWireType
    | IllegalWireType

  datatype Result<+T> = Ok(value: T) | Err(error: Error)

  // ---- varints ----

  /** Base 128, least significant group first, the top bit marking that more follows. */
  function Varint(v: nat): (s: Bytes)
    ensures |s| > 0
  {
    if v < 128 then [v as byte] else [Group(v)] + Varint(v / 128)
  }

  /** The lowest group of a number that has more of them. */
  function Group(v: nat): byte {
    (v % 128 + 128) as byte
  }

  /** A number and how many bytes it was read from. */
  datatype Read<+T> = Read(value: T, length: nat)

  /**
   * Reads the groups of a varint from the k-th on. Ten groups fill 64 bits; of the tenth only the
   * lowest bit is kept, and an eleventh is an error.
   */
  function ReadGroups(s: Bytes, k: nat): (r: Result<Read<nat>>)
    requires k <= 10
    ensures r.Ok? ==> 1 <= r.value.length <= |s|
    decreases |s|
  {
    if k == 10 then Err(IntOverflow)
    else if s == [] then Err(UnexpectedEOF)
    else
      var low := s[0] as int % 128;
      var kept := if k == 9 then low % 2 else low;
      if s[0] < 128 then Ok(Read(kept, 1))
      else
        var more := ReadGroups(s[1..], k + 1);
        if more.Err? then more else Ok(Read(kept + 128 * more.value.value, more.value.length + 1))
  }

  function ReadVarint(s: Bytes): (r: Result<Read<nat>>)
    ensures r.Ok? ==> 1 <= r.value.length <= |s|
  {
    ReadGroups(s, 0)
  }

  /** A 64-bit pattern as a signed number. */
  function Signed(v: int): int {
    if v % U64 >= I64 then v % U64 - U64 else v % U64
  }

  /** `int32` of a 64-bit pattern. */
  function Int32(v: nat): int {
    var low := v % 0x1_0000_0000;
    if low >= 0x8000_0000 then low - 0x1_0000_0000 else low
  }

  // ---- skipping ----

  /** Where the payload of a field ends that starts at j; this may lie beyond the data. */
  function PayloadEnd(s: Bytes, j: nat, wireType: nat): (r: Result<nat>)
    requires j <= |s|
    ensures r.Ok? ==> r.value >= j
  {
    if wireType == 0 then
      var v := ReadVarint(s[j..]);
      if v.Err? then Err(v.error) else Ok(j + v.value.length)
    else if wireType == 1 then Ok(j + 8)
    else if wireType == 2 then
      var v := ReadVarint(s[j..]);
      if v.Err? then Err(v.error)
      else
        var length := Signed(v.value.value);
        var end := Signed(j + v.value.length + length);
        if length < 0 || end < j then Err(InvalidLength) else Ok(end)
    else if wireType == 3 || wireType == 4 then Ok(j)
    else if wireType == 5 then Ok(j + 4)
    else Err(IllegalWireType)
  }

  /** `skipEvm` from position i on, inside `depth` open groups: the end of the field. */
  function SkipFrom(s: Bytes, i: nat, depth: nat): (r: Result<nat>)
    ensures r.Ok? ==> r.value > i
    decreases if i < |s| then |s| - i else 0
  {
    if i >= |s| then Err(UnexpectedEOF)
    else
      var tag := ReadVarint(s[i..]);
      if tag.Err? then Err(tag.error)
      else
        var wireType := tag.value.value % 8;
        if wireType == 4 && depth == 0 then Err(UnexpectedEndOfGroup)
        else
          var end := PayloadEnd(s, i + tag.value.length, wireType);
          if end.Err? then end
          else
            var depth' := if wireType == 3 then depth + 1 else if wireType == 4 then depth - 1 else depth;
            if depth' == 0 then Ok(end.value) else SkipFrom(s, end.value, depth')
  }

  // ---- messages ----

  datatype Payload = Number(number: nat) | Chunk(bytes: Bytes)

  const VARINT := 0
  const LENGTH_DELIMITED := 2

  /** A message type: the wire types of its fields, and what reading a field does to the message. */
  datatype Schema<!M> = Schema(wireType: int -> Option<nat>, put: (M, int, Payload) -> Result<M>)

  /** The payload of a known field, and its length. */
  function ReadPayload(s: Bytes, j: nat, wireType: nat): (r: Result<Read<Payload>>)
    requires j <= |s|
    ensures r.Ok? ==> j + r.value.length <= |s|
  {
    var v := ReadVarint(s[j..]);
    if v.Err? then Err(v.error)
    else if wireType == VARINT then Ok(Read(Number(v.value.value), v.value.length))
    else
      var start := j + v.value.length;
      var length := Signed(v.value.value);
      var end := Signed(start + length);
      if length < 0 || end < start then Err(InvalidLength)
      else if end > |s| then Err(UnexpectedEOF)
      else Ok(Read(Chunk(s[start..end]), end - j))
  }

  /** Skips the field at position i of the data. */
  function SkipField(s: Bytes, i: nat): (r: Result<nat>)
    requires i <= |s|
    ensures r.Ok? ==> i < r.value <= |s|
  {
    var n := SkipFrom(s[i..], 0, 0);
    if n.Err? then n
    else if Signed(i + n.value) < 0 then Err(InvalidLength)
    else if i + n.value > |s| then Err(UnexpectedEOF)
    else Ok(i + n.value)
  }

  /** A message after reading a field, and where the next field starts. */
  datatype Step<+M> = Step(message: M, next: nat)

  /** Reads the field at position i of the data into the message. */
  function ReadField<M>(schema: Schema<M>, m: M, s: Bytes, i: nat): (r: Result<Step<M>>)
    requires i <= |s|
    ensures r.Ok? ==> i < r.value.next <= |s|
  {
    var tag := ReadVarint(s[i..]);
    if tag.Err? then Err(tag.error)
    else
      var j := i + tag.value.length;
      var field, wireType := Int32(tag.value.value / 8), tag.value.value % 8;
      if wireType == 4 then Err(EndGroup)
      else if field <= 0 then Err(IllegalTag)
      else if schema.wireType(field).Some? then
        if wireType != schema.wireType(field).value then Err(WrongWireType)
        else
          var payload := ReadPayload(s, j, wireType);
          if payload.Err? then Err(payload.error)
          else
            var m' := schema.put(m, field, payload.value.value);
            if m'.Err? then Err(m'.error) else Ok(Step(m'.value, j + payload.value.length))
      else
        var next := SkipField(s, i);
        if next.Err? then Err(next.error) else Ok(Step(m, next.value))
  }

  /** `Unmarshal` into a message, from position i on: reads fields until the data is used up. */
  function UnmarshalFrom<M>(schema: Schema<M>, m: M, s: Bytes, i: nat): Result<M>
    requires i <= |s|
    decreases |s| - i
  {
    if i == |s| then Ok(m)
    else
      var field := ReadField(schema, m, s, i);
      if field.Err? then Err(field.error) else UnmarshalFrom(schema, field.value.message, s, field.value.next)
  }

  function Unmarshal<M>(schema: Schema<M>, m: M, s: Bytes): Result<M> {
    UnmarshalFrom(schema, m, s, 0)
  }

  // ---- records, the independent description of a message's bytes ----

  /** A field on the wire, known or unknown. */
  datatype Record =
    | VarintRecord(field: nat, value: nat)
    | Fixed64Record(field: nat, bytes: Bytes)
    | BytesRecord(field: nat, bytes: Bytes)
    | GroupRecord(field: nat, records: seq<Record>)
    | Fixed32Record(field: nat, bytes: Bytes)
  {
    function WireType(): nat {
      match this
      case VarintRecord(_, _) => 0
      case Fixed64Record(_, _) => 1
      case BytesRecord(_, _) => 2
      case GroupRecord(_, _) => 3
      case Fixed32Record(_, _) => 5
    }

    /** Field numbers below 2^29, values of 64 bits, fixed payloads of their size. */
    predicate WellFormed() {
      && 1 <= field < 0x2000_0000
      && (VarintRecord? ==> value < U64)
      && (Fixed64Record? ==> |bytes| == 8)
      && (Fixed32Record? ==> |bytes| == 4)
      && (GroupRecord? ==> forall i :: 0 <= i < |records| ==> records[i].WellFormed())
    }
  }

  predicate AllWellFormed(rs: seq<Record>) {
    forall i :: 0 <= i < |rs| ==> rs[i].WellFormed()
  }

  function Tag(field: nat, wireType: nat): Bytes {
    Varint(8 * field + wireType)
  }

  function Encode(r: Record): (s: Bytes)
    ensures |s| > 0
  {
    Tag(r.field, r.WireType()) +
    match r
    case VarintRecord(_, value) => Varint(value)
    case BytesRecord(_, bytes) => Varint(|bytes|) + bytes
    case GroupRecord(field, records) => EncodeAll(records) + Tag(field, 4)
    case Fixed64Record(_, bytes) => bytes
    case Fixed32Record(_, bytes) => bytes
  }

  function EncodeAll(rs: seq<Record>): Bytes {
    if rs == [] then [] else Encode(rs[0]) + EncodeAll(rs[1..])
  }

  function PayloadOf(r: Record): Payload
    requires r.VarintRecord? || r.BytesRecord?
  {
    if r.VarintRecord? then Number(r.value) else Chunk(r.bytes)
  }

  /** What a record means to a message type: unknown fields are ignored, known ones must have their wire type. */
  function Apply<M>(schema: Schema<M>, m: M, r: Record): Result<M> {
    if schema.wireType(r.field).None? then Ok(m)
    else if r.WireType() != schema.wireType(r.field).value then Err(WrongWireType)
    else if r.VarintRecord? || r.BytesRecord? then schema.put(m, r.field, PayloadOf(r))
    else Err(WrongWireType)
  }

  function ApplyAll<M>(schema: Schema<M>, m: M, rs: seq<Record>): Result<M> {
    if rs == [] then Ok(m)
    else
      var m' := Apply(schema, m, rs[0]);
      if m'.Err? then m' else ApplyAll(schema, m'.value, rs[1..])
  }

  /** Known fields are varints or length-delimited. */
  ghost predicate Sound<M(!new)>(schema: Schema<M>) {
    forall f :: schema.wireType(f).Some? ==> schema.wireType(f).value == VARINT || schema.wireType(f).value == LENGTH_DELIMITED
  }
}
