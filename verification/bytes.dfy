/**
 * Byte-level vocabulary shared by the message buffer and both servers:
 * the byte type, zero fill, C's 32-bit big-endian layout, C strings
 * (everything before the first NUL) and `%d` decimal text.
 */
module Bytes {

  /** One unsigned 8-bit value. */
  type byte = x: int | 0 <= x < 256

  const TWO_32: int := 0x1_0000_0000
  const INT32_MIN: int := -0x8000_0000
  const INT32_MAX: int := 0x7FFF_FFFF

  /** The values a C `int` holds. */
  predicate IsInt32(n: int) {
    INT32_MIN <= n <= INT32_MAX
  }

  /** `n` bytes of zero. */
  function Zeros(n: nat): (z: seq<byte>)
    ensures |z| == n
  {
    seq(n, _ => 0)
  }

  /**
   * The four bytes `(x & 0xFF000000) >> 24`, `(x & 0x00FF0000) >> 16`,
   * `(x & 0x0000FF00) >> 8`, `x & 0xFF` that the server stores for a C `int`
   * x: its two's-complement bit pattern, most significant byte first.
   */
  function EncodeBE32(n: int): (b: seq<byte>)
    requires IsInt32(n)
    ensures |b| == 4
  {
    var u := n % TWO_32;
    [u / 0x100_0000, (u / 0x1_0000) % 256, (u / 0x100) % 256, u % 256]
  }

  /** `b0 << 24 | b1 << 16 | b2 << 8 | b3` over unsigned bytes, as a 32-bit pattern. */
  function UnsignedBE32(b: seq<byte>): (u: int)
    requires |b| == 4
    ensures 0 <= u < TWO_32
  {
    ((b[0] as int * 256 + b[1]) * 256 + b[2]) * 256 + b[3]
  }

  /** The C `int` whose bit pattern is the four bytes, most significant first. */
  function DecodeBE32(b: seq<byte>): (n: int)
    requires |b| == 4
    ensures IsInt32(n)
    ensures n < 0 <==> b[0] >= 128
  {
    var u := UnsignedBE32(b);
    if u >= 0x8000_0000 then u - TWO_32 else u
  }

  /** Decoding the encoding of any C `int` gives it back. */
  lemma DecodeEncodeBE32(n: int)
    requires IsInt32(n)
    ensures DecodeBE32(EncodeBE32(n)) == n
  {
    var u := n % TWO_32;
    var u1, u2, u3 := u / 256, u / 0x1_0000, u / 0x100_0000;
    assert u == u1 * 256 + u % 256;
    assert u2 == u1 / 256;
    assert u1 == u2 * 256 + u1 % 256;
    assert u3 == u2 / 256;
    assert u2 == u3 * 256 + u2 % 256;
    assert UnsignedBE32(EncodeBE32(n)) == u;
  }

  /** Encoding the decoded value gives back the same four bytes: the layout is a bijection. */
  lemma EncodeDecodeBE32(b: seq<byte>)
    requires |b| == 4
    ensures EncodeBE32(DecodeBE32(b)) == b
  {
    var u := UnsignedBE32(b);
    assert DecodeBE32(b) % TWO_32 == u;
    var e := EncodeBE32(DecodeBE32(b));
    assert u / 256 == (b[0] as int * 256 + b[1]) * 256 + b[2];
    assert u / 0x1_0000 == (u / 256) / 256;
    assert u / 0x1_0000 == b[0] as int * 256 + b[1];
    assert u / 0x100_0000 == (u / 0x1_0000) / 256;
    assert e == [b[0], b[1], b[2], b[3]];
  }

  /** Distinct byte quadruples decode to distinct values. */
  lemma DecodeBE32Injective(a: seq<byte>, b: seq<byte>)
    requires |a| == 4 && |b| == 4 && a != b
    ensures DecodeBE32(a) != DecodeBE32(b)
  {
    EncodeDecodeBE32(a);
    EncodeDecodeBE32(b);
  }

  /**
   * The C string held by a buffer: the bytes before the first NUL, or all of
   * them when there is none.  Its length is what `strlen` returns.
   */
  function CStr(s: seq<byte>): (c: seq<byte>)
    ensures |c| <= |s| && c == s[..|c|]
    ensures 0 !in c
    ensures |c| < |s| ==> s[|c|] == 0
  {
    if s == [] || s[0] == 0 then [] else [s[0]] + CStr(s[1..])
  }

  /** A buffer holding `body` and then a terminator holds exactly the C string `body`. */
  lemma CStrTerminated(body: seq<byte>, tail: seq<byte>)
    requires 0 !in body
    ensures CStr(body + [0] + tail) == body
  {
    var s := body + [0] + tail;
    assert s[|body|] == 0;
  }

  /**
   * The C string of a buffer is `body` exactly when the buffer starts with
   * `body` and ends or has a NUL right after it: what `strcmp` against a
   * NUL-free literal tests.
   */
  lemma CStrIs(s: seq<byte>, body: seq<byte>)
    requires 0 !in body
    ensures CStr(s) == body <==>
      (|body| <= |s| && s[..|body|] == body && (|s| == |body| || s[|body|] == 0))
  {
    var n := |body|;
    if n <= |s| && s[..n] == body && (|s| == n || s[n] == 0) {
      CStrOfPrefix(s, body);
    }
  }

  lemma CStrOfPrefix(s: seq<byte>, body: seq<byte>)
    requires 0 !in body && |body| <= |s| && s[..|body|] == body
    requires |s| == |body| || s[|body|] == 0
    ensures CStr(s) == body
  {
    var n := |body|;
    if |s| == n {
      assert s == body;
      CStrWithoutNul(body);
    } else {
      var tail := s[n + 1..];
      assert s == s[..n] + [s[n]] + tail;
      CStrTerminated(body, tail);
    }
  }

  /** A buffer without NUL is itself the C string. */
  lemma CStrWithoutNul(s: seq<byte>)
    requires 0 !in s
    ensures CStr(s) == s
  {
  }

  /** The bytes of a text written in a C source file (every character below 256). */
  function Text(s: string): (b: seq<byte>)
    requires forall i :: 0 <= i < |s| ==> s[i] as int < 256
    ensures |b| == |s| && forall i :: 0 <= i < |s| ==> b[i] == s[i] as int
  {
    seq(|s|, i requires 0 <= i < |s| => s[i] as int)
  }

  const ZERO_DIGIT: byte := 48
  const MINUS_SIGN: byte := 45

  predicate IsDigit(b: byte) {
    ZERO_DIGIT <= b < ZERO_DIGIT + 10
  }

  /** The base-10 digits of `n`, without leading zeros. */
  function Digits(n: nat): (d: seq<byte>)
    ensures 1 <= |d|
    ensures forall i :: 0 <= i < |d| ==> IsDigit(d[i])
    ensures |d| > 1 ==> d[0] != ZERO_DIGIT
  {
    if n < 10 then [ZERO_DIGIT + n] else Digits(n / 10) + [ZERO_DIGIT + n % 10]
  }

  /** What `sprintf(buffer, "%d", n)` writes: an optional minus sign and the digits of |n|. */
  function Decimal(n: int): (d: seq<byte>)
    ensures 1 <= |d| && (n < 0 <==> d[0] == MINUS_SIGN)
    ensures forall i :: (if n < 0 then 1 else 0) <= i < |d| ==> IsDigit(d[i])
    ensures 0 !in d
  {
    if n < 0 then [MINUS_SIGN] + Digits(-n) else Digits(n)
  }

  /** The value of a string of decimal digits, read most significant first. */
  function DigitsValue(d: seq<byte>): int
  {
    if d == [] then 0 else DigitsValue(d[..|d| - 1]) * 10 + (d[|d| - 1] - ZERO_DIGIT)
  }

  /** Reads decimal text back: an optional minus sign followed by digits. */
  function ParseDecimal(s: seq<byte>): int
  {
    if |s| > 0 && s[0] == MINUS_SIGN then -DigitsValue(s[1..]) else DigitsValue(s)
  }

  lemma {:induction false} DigitsRoundTrip(n: nat)
    ensures DigitsValue(Digits(n)) == n
  {
    if n >= 10 {
      DigitsRoundTrip(n / 10);
      var d := Digits(n);
      assert d[..|d| - 1] == Digits(n / 10);
    }
  }

  /** The decimal text of every integer parses back to it. */
  lemma DecimalRoundTrip(n: int)
    ensures ParseDecimal(Decimal(n)) == n
  {
    if n < 0 {
      DigitsRoundTrip(-n);
      assert Decimal(n)[1..] == Digits(-n);
    } else {
      DigitsRoundTrip(n);
    }
  }

  lemma {:induction false} DigitsLength(n: nat, k: nat, bound: nat)
    requires 1 <= k && n < bound
    requires bound == Pow10(k)
    ensures |Digits(n)| <= k
  {
    if n >= 10 {
      assert Pow10(1) == 10;
      assert Pow10(k) == Pow10(k - 1) * 10;
      DigitsLength(n / 10, k - 1, Pow10(k - 1));
    }
  }

  function Pow10(k: nat): (p: nat)
    ensures p >= 1
  {
    if k == 0 then 1 else Pow10(k - 1) * 10
  }

  /** `%d` of a C `int` takes at most eleven characters, so the 20-byte buffer of WriteNumber suffices. */
  lemma DecimalInt32Length(n: int)
    requires IsInt32(n)
    ensures 1 <= |Decimal(n)| <= 11
    ensures n >= 0 ==> |Decimal(n)| <= 10
  {
    assert Pow10(10) == 10_000_000_000;
    if n < 0 {
      DigitsLength(-n, 10, Pow10(10));
    } else {
      DigitsLength(n, 10, Pow10(10));
    }
  }
}
