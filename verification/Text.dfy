/** The decimal and hexadecimal text that event attributes are written in. */
module Text {
  import opened EvmTypes

  // ---- decimal numbers ----

  function DigitOf(n: nat): char
    requires n < 10
  {
    '0' + n as char
  }

  predicate IsDigit(c: char) {
    '0' <= c <= '9'
  }

  /** `strconv.FormatUint(n, 10)`. */
  function FormatUint(n: nat): (s: string)
    ensures |s| > 0 && IsDigit(s[0])
  {
    if n < 10 then [DigitOf(n)] else FormatUint(n / 10) + [DigitOf(n % 10)]
  }

  /** The value of a string of digits, if that is what it is. */
  function DigitsValue(s: string): Option<nat> {
    if s == "" then Some(0)
    else
      var last := |s| - 1;
      var front := DigitsValue(s[..last]);
      if IsDigit(s[last]) && front.Some? then Some(front.value * 10 + (s[last] - '0') as nat) else None
  }

  /** `strconv.ParseInt(s, 10, 64)`: an optional sign, at least one digit, and a value that fits an int64. */
  function ParseInt(s: string): Option<int> {
    var negative := s != "" && s[0] == '-';
    var digits := if s != "" && (s[0] == '-' || s[0] == '+') then s[1..] else s;
    var value := DigitsValue(digits);
    if digits == "" || value.None? then None
    else
      var magnitude: int := value.value;
      var signed := if negative then -magnitude else magnitude;
      if -I64 <= signed < I64 then Some(signed) else None
  }

  lemma {:induction false} DigitsOfFormat(n: nat)
    ensures DigitsValue(FormatUint(n)) == Some(n)
  {
    if n < 10 {
      assert FormatUint(n)[..0] == "";
    } else {
      DigitsOfFormat(n / 10);
      var s := FormatUint(n);
      assert s[..|s| - 1] == FormatUint(n / 10);
    }
  }

  /** Reading back a printed number gives that number exactly when it fits an int64, and an error otherwise. */
  lemma ParseOfFormat(n: nat)
    ensures ParseInt(FormatUint(n)) == if n < I64 then Some(n) else None
  {
    DigitsOfFormat(n);
  }

  /** The i-th decimal digit of a number, the lowest first. */
  function Digit(n: nat, i: nat): nat {
    if i == 0 then n % 10 else Digit(n / 10, i - 1)
  }

  const DECIMAL := "0123456789"

  /** A number is printed as its decimal digits, the highest first and not zero, unless it is zero itself. */
  lemma {:induction false} FormatPlaces(n: nat)
    ensures var s := FormatUint(n);
            && (forall i :: 0 <= i < |s| ==> Digit(n, i) < 10 && s[|s| - 1 - i] == DECIMAL[Digit(n, i)])
            && (n != 0 ==> s[0] != '0')
  {
    var s := FormatUint(n);
    if n >= 10 {
      var front := FormatUint(n / 10);
      FormatPlaces(n / 10);
      forall i | 0 <= i < |s| ensures Digit(n, i) < 10 && s[|s| - 1 - i] == DECIMAL[Digit(n, i)] {
        DigitChar(n % 10);
        if i > 0 {
          assert s[|s| - 1 - i] == front[|front| - 1 - (i - 1)];
          assert Digit(n, i) == Digit(n / 10, i - 1);
        }
      }
    } else {
      DigitChar(n);
    }
  }

  lemma DigitChar(n: nat)
    requires n < 10
    ensures DigitOf(n) == DECIMAL[n]
  {
  }

  lemma {:induction false} OnlyDigits(s: string)
    ensures DigitsValue(s).Some? <==> forall i :: 0 <= i < |s| ==> '0' <= s[i] <= '9'
  {
    if s != "" {
      var last := |s| - 1;
      OnlyDigits(s[..last]);
      if forall i :: 0 <= i < last ==> '0' <= s[..last][i] <= '9' {
        assert forall i :: 0 <= i < last ==> s[i] == s[..last][i];
      }
    }
  }

  /** Only digits behind an optional sign, at least one of them, are read as a number. */
  lemma ParseIntForm(s: string)
    ensures ParseInt(s).Some? ==>
              var digits := if s != "" && (s[0] == '-' || s[0] == '+') then s[1..] else s;
              digits != "" && forall i :: 0 <= i < |digits| ==> '0' <= digits[i] <= '9'
  {
    hide DigitsValue;
    OnlyDigits(if s != "" && (s[0] == '-' || s[0] == '+') then s[1..] else s);
  }

  /** Signed text is read with its sign, down to -2^63. */
  lemma ParseOfSigned(n: nat)
    ensures ParseInt("-" + FormatUint(n)) == if n <= I64 then Some(-(n as int)) else None
    ensures ParseInt("+" + FormatUint(n)) == ParseInt(FormatUint(n))
  {
    hide FormatUint, DigitsValue;
    DigitsOfFormat(n);
    var s := FormatUint(n);
    assert ("-" + s)[1..] == s && ("+" + s)[1..] == s;
  }

  // ---- hexadecimal hashes ----

  function HexDigit(n: nat): char
    requires n < 16
  {
    if n < 10 then '0' + n as char else 'a' + (n - 10) as char
  }

  function HexValue(c: char): Option<nat> {
    if '0' <= c <= '9' then Some((c - '0') as nat)
    else if 'a' <= c <= 'f' then Some((c - 'a') as nat + 10)
    else if 'A' <= c <= 'F' then Some((c - 'A') as nat + 10)
    else None
  }

  function EncodeHex(b: Bytes): string {
    if b == [] then "" else [HexDigit(b[0] as int / 16), HexDigit(b[0] as int % 16)] + EncodeHex(b[1..])
  }

  /** `hex.DecodeString` with its error dropped: the bytes before the first malformed pair. */
  function DecodeHex(s: string): Bytes {
    if |s| < 2 || HexValue(s[0]).None? || HexValue(s[1]).None? then []
    else [(HexValue(s[0]).value * 16 + HexValue(s[1]).value) as byte] + DecodeHex(s[2..])
  }

  /** `common.FromHex`: drops an optional prefix and pads an odd number of digits. */
  function FromHex(s: string): Bytes {
    var digits := if |s| >= 2 && s[0] == '0' && (s[1] == 'x' || s[1] == 'X') then s[2..] else s;
    DecodeHex(if |digits| % 2 == 1 then "0" + digits else digits)
  }

  /** `common.HexToHash`. */
  function HexToHash(s: string): Hash {
    BytesToHash(FromHex(s))
  }

  /** `Hash.Hex`. */
  function HashHex(h: Hash): string {
    "0x" + EncodeHex(h.bytes)
  }

  lemma {:induction false} DecodeOfEncode(b: Bytes)
    ensures |EncodeHex(b)| == 2 * |b| && DecodeHex(EncodeHex(b)) == b
  {
    if b != [] {
      DecodeOfEncode(b[1..]);
      var s := EncodeHex(b);
      assert s[2..] == EncodeHex(b[1..]);
      assert b == [b[0]] + b[1..];
    }
  }

  const HEXADECIMAL := "0123456789abcdef"

  /** Bytes are printed as two digits each, the high one first. */
  lemma {:induction false} EncodePlaces(b: Bytes, i: nat)
    requires i < |b|
    ensures |EncodeHex(b)| == 2 * |b|
    ensures EncodeHex(b)[2 * i] == HEXADECIMAL[b[i] as int / 16] && EncodeHex(b)[2 * i + 1] == HEXADECIMAL[b[i] as int % 16]
  {
    hide HexDigit;
    DecodeOfEncode(b);
    if i == 0 {
      HexChars(b[0] as int / 16);
      HexChars(b[0] as int % 16);
    } else {
      EncodePlaces(b[1..], i - 1);
      assert EncodeHex(b)[2..] == EncodeHex(b[1..]);
      assert EncodeHex(b)[2 * i] == EncodeHex(b)[2..][2 * (i - 1)];
      assert EncodeHex(b)[2 * i + 1] == EncodeHex(b)[2..][2 * (i - 1) + 1];
    }
  }

  /** Digits are read in either case. */
  lemma HexChars(n: nat)
    requires n < 16
    ensures HexDigit(n) == HEXADECIMAL[n]
    ensures HexValue(HEXADECIMAL[n]) == HexValue("0123456789ABCDEF"[n]) == Some(n)
  {
  }

  /** A hash printed in hexadecimal is read back as itself, with either prefix or none. */
  lemma HexToHashOfHex(h: Hash)
    ensures HexToHash(HashHex(h)) == HexToHash("0X" + EncodeHex(h.bytes)) == HexToHash(EncodeHex(h.bytes)) == h
  {
    hide EncodeHex, DecodeHex;
    DecodeOfEncode(h.bytes);
    var s := EncodeHex(h.bytes);
    assert ("0x" + s)[2..] == s && ("0X" + s)[2..] == s;
    assert h.bytes[0..] == h.bytes;
    EncodePlaces(h.bytes, 0);
    NoPrefix(h.bytes[0] as int % 16);
  }

  lemma NoPrefix(n: nat)
    requires n < 16
    ensures HEXADECIMAL[n] != 'x' && HEXADECIMAL[n] != 'X'
  {
  }

  // ---- hexadecimal numbers of any length ----

  ghost predicate AllHex(s: string) {
    forall i :: 0 <= i < |s| ==> HexValue(s[i]).Some?
  }

  /** The number that hexadecimal digits stand for. */
  function HexNumber(s: string): nat {
    if s == "" then 0
    else
      var digit := HexValue(s[|s| - 1]);
      HexNumber(s[..|s| - 1]) * 16 + if digit.Some? then digit.value else 0
  }

  lemma {:induction false} DecodePushed(s: string, c: char, d: char)
    requires AllHex(s) && |s| % 2 == 0 && HexValue(c).Some? && HexValue(d).Some?
    ensures DecodeHex(s + [c, d]) == DecodeHex(s) + [(HexValue(c).value * 16 + HexValue(d).value) as byte]
  {
    hide HexValue;
    if s == "" {
      assert s + [c, d] == [c, d] && [c, d][2..] == "";
    } else {
      DecodePushed(s[2..], c, d);
      assert (s + [c, d])[2..] == s[2..] + [c, d];
    }
  }

  lemma {:induction false} DecodeNumber(s: string)
    requires AllHex(s) && |s| % 2 == 0
    ensures BigEndian(DecodeHex(s)) == HexNumber(s)
  {
    hide HexValue, DecodeHex;
    if s == "" {
      DecodeNothing();
    } else {
      var n := |s|;
      var front, c, d := s[..n - 2], s[n - 2], s[n - 1];
      DecodeNumber(front);
      DecodePushed(front, c, d);
      assert s == front + [c, d];
      assert s[..n - 1][..n - 2] == front;
      var b := DecodeHex(s);
      assert b[..|b| - 1] == DecodeHex(front);
    }
  }

  lemma DecodeNothing()
    ensures DecodeHex("") == []
  {
  }

  lemma {:induction false} LeadingZero(s: string)
    ensures HexNumber("0" + s) == HexNumber(s)
  {
    if s == "" {
      assert "0"[..0] == "";
    } else {
      LeadingZero(s[..|s| - 1]);
      assert ("0" + s)[..|s|] == "0" + s[..|s| - 1];
    }
  }

  /** Digits of either case, an odd number of them as well, are read as the number they stand for. */
  lemma FromHexNumber(s: string)
    requires AllHex(s)
    ensures BigEndian(FromHex("0x" + s)) == BigEndian(FromHex("0X" + s)) == HexNumber(s)
  {
    hide DecodeHex, HexNumber, BigEndian;
    assert ("0x" + s)[2..] == s && ("0X" + s)[2..] == s;
    if |s| % 2 == 1 {
      LeadingZero(s);
      HexChars(0);
      DecodeNumber("0" + s);
    } else {
      DecodeNumber(s);
    }
  }
}
