/** Words, addresses, hashes and machine integers shared by every module. */
module EvmTypes {

  newtype byte = x: int | 0 <= x < 256

  type Bytes = seq<byte>

  /** A fixed-width byte string; the wrapper keeps map keys apart from ordinary sequences. */
  datatype Word = Word(bytes: Bytes)

  /** The 20-byte account identifier (`common.Address`). */
  type Address = w: Word | |w.bytes| == 20 witness Word(Zeros(20))

  /** The 32-byte word used for hashes, storage keys and storage values (`common.Hash`). */
  type Hash = w: Word | |w.bytes| == 32 witness Word(Zeros(32))

  datatype Option<+T> = None | Some(value: T)

  const U64: int := 0x1_0000_0000_0000_0000

  const I64: int := 0x8000_0000_0000_0000

  type uint64 = x: int | 0 <= x < U64

  function Zeros(n: nat): (z: Bytes)
    ensures |z| == n && forall i :: 0 <= i < n ==> z[i] == 0
  {
    if n == 0 then [] else Zeros(n - 1) + [0]
  }

  /** `common.Hash{}`. */
  const ZERO_HASH: Hash := Word(Zeros(32))

  function Max(x: int, y: int): int {
    if x < y then y else x
  }

  function Min(x: int, y: int): int {
    if x < y then x else y
  }

  /** `common.BytesToHash`: crops from the left, pads on the left with zeros. */
  function BytesToHash(b: Bytes): Hash {
    if |b| >= 32 then Word(b[|b| - 32..]) else Word(Zeros(32 - |b|) + b)
  }

  /** Wrapping early does not change a wrapping sum. */
  lemma WrapSum(a: nat, b: nat)
    ensures (a % U64 + b) % U64 == (a + b) % U64
  {
    assert a == U64 * (a / U64) + a % U64;
    var q, r := (a % U64 + b) / U64, (a % U64 + b) % U64;
    assert a + b == U64 * (a / U64 + q) + r;
    WrapUnique(a + b, a / U64 + q, r);
  }

  lemma WrapUnique(n: nat, q: int, r: nat)
    requires n == U64 * q + r && r < U64
    ensures n % U64 == r
  {
  }

  // ---- bytes as numbers ----

  /** The number that bytes stand for, most significant byte first. */
  function BigEndian(b: Bytes): nat {
    if b == [] then 0 else BigEndian(b[..|b| - 1]) * 256 + b[|b| - 1] as int
  }

  function Power256(n: nat): nat {
    if n == 0 then 1 else Power256(n - 1) * 256
  }

  lemma {:induction false} BigEndianConcat(a: Bytes, b: Bytes)
    ensures BigEndian(a + b) == BigEndian(a) * Power256(|b|) + BigEndian(b)
    decreases |b|
  {
    if b == [] {
      assert a + b == a;
    } else {
      var front, last := b[..|b| - 1], b[|b| - 1];
      BigEndianConcat(a, front);
      assert (a + b)[..|a + b| - 1] == a + front;
      Rescale(BigEndian(a), Power256(|front|), BigEndian(front));
    }
  }

  lemma Rescale(x: nat, p: nat, y: nat)
    ensures (x * p + y) * 256 == x * (p * 256) + y * 256
  {
  }

  lemma {:induction false} BigEndianBounded(b: Bytes)
    ensures BigEndian(b) < Power256(|b|)
  {
    if b != [] {
      BigEndianBounded(b[..|b| - 1]);
    }
  }

  lemma {:induction false} ZerosCountNothing(n: nat)
    ensures BigEndian(Zeros(n)) == 0
  {
    if n > 0 {
      ZerosCountNothing(n - 1);
      assert Zeros(n)[..n - 1] == Zeros(n - 1);
    }
  }

  /** `BytesToHash` keeps the number; of a longer one it keeps the lowest 256 bits. */
  lemma BytesToHashKeeps(b: Bytes)
    ensures |b| <= 32 ==> BigEndian(BytesToHash(b).bytes) == BigEndian(b)
    ensures |b| > 32 ==> BigEndian(b) == BigEndian(b[..|b| - 32]) * Power256(32) + BigEndian(BytesToHash(b).bytes)
  {
    hide BigEndian, Power256, Zeros;
    if |b| < 32 {
      BigEndianConcat(Zeros(32 - |b|), b);
      ZerosCountNothing(32 - |b|);
    } else if |b| == 32 {
      assert b[0..] == b;
    } else {
      BigEndianConcat(b[..|b| - 32], b[|b| - 32..]);
      assert b == b[..|b| - 32] + b[|b| - 32..];
    }
  }
}
