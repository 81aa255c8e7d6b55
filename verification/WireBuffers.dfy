/**
 * The generated code as it runs: readers that walk an index over the data, and a writer that fills
 * a buffer of the computed size from its end towards its beginning.
 */
module WireBuffers {
  import opened EvmTypes
  import opened Wire
  import opened WireLogs

  // ---- reading ----

  /** The weight of the k-th group of a varint, two to the power of the shift. */
  function Unit(k: nat): nat {
    if k == 0 then 1 else 128 * Unit(k - 1)
  }

  /** What a varint reads as once its first k groups gave `acc`. */
  function Resume(acc: nat, k: nat, r: Result<Read<nat>>): Result<Read<nat>> {
    if r.Err? then r else Ok(Read(acc + Unit(k) * r.value.value, k + r.value.length))
  }

  lemma UnitValues(k: nat)
    ensures Unit(k) > 0
    ensures k < 9 ==> 128 * Unit(k) <= I64
    ensures k == 9 ==> Unit(k) == I64
  {
    UnitPositive(k);
    if k < 9 {
      UnitGrows(k + 1, 9);
    }
    assert Unit(2) == 0x4000;
    assert Unit(4) == 0x1000_0000;
    assert Unit(6) == 0x400_0000_0000;
    assert Unit(8) == 0x100_0000_0000_0000;
    assert Unit(9) == I64;
  }

  lemma {:induction false} UnitPositive(k: nat)
    ensures Unit(k) > 0
  {
    if k > 0 {
      UnitPositive(k - 1);
    }
  }

  lemma {:induction false} UnitGrows(j: nat, k: nat)
    requires j <= k
    ensures Unit(j) <= Unit(k)
  {
    if j < k {
      UnitGrows(j, k - 1);
    }
  }

  lemma Regroup(unit: nat, low: nat, v: nat)
    ensures unit * (low + 128 * v) == unit * low + 128 * unit * v
  {
  }

  lemma AddLow(acc: nat, unit: nat, low: nat)
    requires acc < unit && low < 128 && 128 * unit <= I64
    ensures acc + low * unit == acc + unit * low < 128 * unit
  {
    Monotone(low, 127, unit);
  }

  lemma Monotone(x: nat, y: nat, unit: nat)
    requires x <= y
    ensures x * unit <= y * unit
  {
    assert y * unit - x * unit == (y - x) * unit;
  }

  lemma AddTenth(acc: nat, low: nat)
    requires acc < I64 && low < 128
    ensures (acc + low * I64) % U64 == acc + I64 * (low % 2) < U64
  {
    var bit, q := low % 2, low / 2;
    assert low * I64 == U64 * q + I64 * bit;
  }

  function Kept(k: nat, low: nat): nat {
    if k == 9 then low % 2 else low
  }

  /** Adding a group stays below its successor's weight, except that the tenth keeps one bit only. */
  lemma AddGroup(acc: nat, k: nat, low: nat)
    requires k <= 9 && acc < Unit(k) && low < 128
    ensures (acc + low * Unit(k)) % U64 == acc + Unit(k) * Kept(k, low) < Unit(k + 1)
  {
    hide Unit;
    UnitValues(k);
    UnitStep(k);
    if k == 9 {
      AddTenth(acc, low);
    } else {
      AddLow(acc, Unit(k), low);
    }
  }

  /** One round of the varint loop. */
  lemma ResumeStep(s: Bytes, k: nat, acc: nat)
    requires s != [] && k <= 9 && acc < Unit(k)
    ensures var acc' := (acc + s[0] as int % 128 * Unit(k)) % U64;
            && acc' < Unit(k + 1)
            && Resume(acc, k, ReadGroups(s, k))
               == if s[0] < 128 then Ok(Read(acc', k + 1)) else Resume(acc', k + 1, ReadGroups(s[1..], k + 1))
  {
    hide Unit;
    var low := s[0] as int % 128;
    AddGroup(acc, k, low);
    UnitStep(k);
    var more := ReadGroups(s[1..], k + 1);
    if s[0] >= 128 && more.Ok? {
      Regroup(Unit(k), Kept(k, low), more.value.value);
    }
  }

  lemma ResumeStart(s: Bytes)
    ensures ReadVarint(s) == Resume(0, 0, ReadGroups(s, 0))
  {
  }

  /** The varint loop, its groups collected in a 64-bit word; the sum is the bitwise or, since the bits do not overlap. */
  method ReadVarintAt(data: Bytes, start: nat) returns (r: Result<Read<nat>>)
    requires start <= |data|
    ensures r == ReadVarint(data[start..])
  {
    hide Unit, ReadVarint;
    var wire, i, shift, unit := 0, start, 0, 1;
    UnitStep(0);
    ResumeStart(data[start..]);
    while true
      invariant start <= i <= |data| && i - start <= 10 && shift == 7 * (i - start)
      invariant unit == Unit(i - start) && 0 <= wire < unit
      invariant ReadVarint(data[start..]) == Resume(wire, i - start, ReadGroups(data[i..], i - start))
      decreases |data| - i
    {
      if shift >= 64 {
        return Err(IntOverflow);
      }
      if i >= |data| {
        return Err(UnexpectedEOF);
      }
      hide Resume, ReadGroups;
      ResumeStep(data[i..], i - start, wire);
      assert data[i..][1..] == data[i + 1..];
      UnitStep(i - start);
      var b := data[i];
      i := i + 1;
      wire := (wire + b as int % 128 * unit) % U64;
      if b < 128 {
        return Ok(Read(wire, i - start));
      }
      shift, unit := shift + 7, 128 * unit;
    }
  }

  lemma UnitStep(k: nat)
    ensures Unit(0) == 1 && Unit(k + 1) == 128 * Unit(k)
  {
  }

  /** The skipping loop with its count of open groups; it ends on every input, since every round advances. */
  method Skip(data: Bytes) returns (r: Result<nat>)
    ensures r == SkipFrom(data, 0, 0)
    ensures r.Ok? ==> r.value > 0
  {
    hide ReadVarint, Signed;
    var i, depth := 0, 0;
    while i < |data|
      invariant SkipFrom(data, 0, 0) == SkipFrom(data, i, depth)
    {
      var wire := ReadVarintAt(data, i);
      if wire.Err? {
        return Err(wire.error);
      }
      i := i + wire.value.length;
      var wireType := wire.value.value % 8;
      if wireType == 0 {
        var v := ReadVarintAt(data, i);
        if v.Err? {
          return Err(v.error);
        }
        i := i + v.value.length;
      } else if wireType == 1 {
        i := i + 8;
      } else if wireType == 2 {
        var v := ReadVarintAt(data, i);
        if v.Err? {
          return Err(v.error);
        }
        var length := Signed(v.value.value);
        if length < 0 {
          return Err(InvalidLength);
        }
        var end := Signed(i + v.value.length + length);
        if end < i {
          return Err(InvalidLength);
        }
        i := end;
      } else if wireType == 3 {
        depth := depth + 1;
      } else if wireType == 4 {
        if depth == 0 {
          return Err(UnexpectedEndOfGroup);
        }
        depth := depth - 1;
      } else if wireType == 5 {
        i := i + 4;
      } else {
        return Err(IllegalWireType);
      }
      if depth == 0 {
        return Ok(i);
      }
    }
    return Err(UnexpectedEOF);
  }

  /** The payload of a known field, by its wire type. */
  method ReadPayloadAt(data: Bytes, j: nat, wireType: nat) returns (r: Result<Read<Payload>>)
    requires j <= |data|
    ensures r == ReadPayload(data, j, wireType)
  {
    hide ReadVarint, Signed;
    var v := ReadVarintAt(data, j);
    if v.Err? {
      return Err(v.error);
    }
    if wireType == VARINT {
      return Ok(Read(Number(v.value.value), v.value.length));
    }
    var start := j + v.value.length;
    var length := Signed(v.value.value);
    if length < 0 {
      return Err(InvalidLength);
    }
    var end := Signed(start + length);
    if end < start {
      return Err(InvalidLength);
    }
    if end > |data| {
      return Err(UnexpectedEOF);
    }
    return Ok(Read(Chunk(data[start..end]), end - j));
  }

  /** `Unmarshal`: the same loop for every message type, one field a round. */
  method Decode<M>(schema: Schema<M>, zero: M, data: Bytes) returns (r: Result<M>)
    ensures r == Unmarshal(schema, zero, data)
  {
    hide ReadVarint, ReadPayload, SkipFrom;
    var m, i := zero, 0;
    while i < |data|
      invariant i <= |data|
      invariant Unmarshal(schema, zero, data) == UnmarshalFrom(schema, m, data, i)
    {
      var preIndex := i;
      var tag := ReadVarintAt(data, i);
      if tag.Err? {
        return Err(tag.error);
      }
      i := i + tag.value.length;
      var field, wireType := Int32(tag.value.value / 8), tag.value.value % 8;
      if wireType == 4 {
        return Err(EndGroup);
      }
      if field <= 0 {
        return Err(IllegalTag);
      }
      var expected := schema.wireType(field);
      if expected.Some? {
        if wireType != expected.value {
          return Err(WrongWireType);
        }
        var payload := ReadPayloadAt(data, i, wireType);
        if payload.Err? {
          return Err(payload.error);
        }
        var m' := schema.put(m, field, payload.value.value);
        if m'.Err? {
          return Err(m'.error);
        }
        m, i := m'.value, i + payload.value.length;
      } else {
        i := preIndex;
        var skippy := Skip(data[i..]);
        if skippy.Err? {
          return Err(skippy.error);
        }
        if Signed(i + skippy.value) < 0 {
          return Err(InvalidLength);
        }
        if i + skippy.value > |data| {
          return Err(UnexpectedEOF);
        }
        i := i + skippy.value;
      }
    }
    return Ok(m);
  }

  /** A log read back from the bytes of a log. */
  method UnmarshalLog(data: Bytes) returns (r: Result<WireLog>)
    ensures r == Unmarshal(LOG, EMPTY_LOG, data)
    ensures forall m :: data == EncodeLog(m) && |data| < I64 ==> r == Ok(m)
  {
    hide Unmarshal, EncodeLog;
    r := Decode(LOG, EMPTY_LOG, data);
    forall m | data == EncodeLog(m) && |data| < I64
      ensures r == Ok(m)
    {
      UnmarshalOfMarshal(m);
    }
  }

  method UnmarshalTransactionLogs(data: Bytes) returns (r: Result<TransactionLogs>)
    ensures r == Unmarshal(TRANSACTION_LOGS, EMPTY_LOGS, data)
    ensures forall m :: data == EncodeLogs(m) && |data| < I64 ==> r == Ok(m)
  {
    hide Unmarshal, EncodeLogs;
    r := Decode(TRANSACTION_LOGS, EMPTY_LOGS, data);
    forall m | data == EncodeLogs(m) && |data| < I64
      ensures r == Ok(m)
    {
      UnmarshalOfMarshalLogs(m);
    }
  }
}
