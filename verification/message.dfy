/**
 * The Message byte builder: a fixed buffer of MESSAGE_SIZE bytes with one
 * cursor, `index`, shared by writes and reads, and a counter, `length`, of
 * the bytes written.  Nothing checks the buffer bound, so every operation
 * requires that it stays inside the buffer.
 */
module Messages {
  import opened Bytes

  const MESSAGE_SIZE: nat := 8192

  /** A length-prefixed field as WriteString lays it out: the big-endian length, then the bytes. */
  function Field(s: seq<byte>): (f: seq<byte>)
    requires |s| <= INT32_MAX
    ensures |f| == 4 + |s|
  {
    EncodeBE32(|s|) + s
  }

  /** `s` with the bytes from position `at` replaced by `e`: what a write at the cursor does to the buffer. */
  function Overwrite(s: seq<byte>, at: nat, e: seq<byte>): (r: seq<byte>)
    requires at + |e| <= |s|
    ensures |r| == |s|
    ensures r[..at] == s[..at] && r[at..at + |e|] == e && r[at + |e|..] == s[at + |e|..]
  {
    seq(|s|, j requires 0 <= j < |s| => if at <= j < at + |e| then e[j - at] else s[j])
  }

  /** Every byte from `from` on still holds the zero fill of a fresh buffer. */
  predicate ZeroFrom(s: seq<byte>, from: nat) {
    forall j :: from <= j < |s| ==> s[j] == 0
  }

  /** A write at the end of the written bytes appends to them and leaves the zero fill after them. */
  lemma OverwriteAtEnd(s: seq<byte>, at: nat, e: seq<byte>)
    requires at + |e| <= |s| && ZeroFrom(s, at)
    ensures Overwrite(s, at, e)[..at + |e|] == s[..at] + e
    ensures ZeroFrom(Overwrite(s, at, e), at + |e|)
  {
    var r := Overwrite(s, at, e);
    assert forall j :: 0 <= j < at + |e| ==> r[..at + |e|][j] == (s[..at] + e)[j];
  }

  /** Two writes at consecutive positions equal one write of both. */
  lemma OverwriteTwice(s: seq<byte>, at: nat, e1: seq<byte>, e2: seq<byte>)
    requires at + |e1| + |e2| <= |s|
    ensures Overwrite(Overwrite(s, at, e1), at + |e1|, e2) == Overwrite(s, at, e1 + e2)
  {
  }

  /**
   * What Send puts on the wire for a fresh message that holds the written
   * bytes `w`: the big-endian `|w|`, then the `|w|` bytes that start at
   * offset 4 of the buffer.  These skip the first four written bytes and run
   * four bytes past them into the zero fill.
   */
  function WireOf(w: seq<byte>): (frame: seq<byte>)
    requires |w| <= INT32_MAX
    ensures |frame| == 4 + |w|
  {
    EncodeBE32(|w|) + (w + Zeros(4))[4..|w| + 4]
  }

  /**
   * The frame header announces exactly the payload bytes that follow it, in
   * the byte order the reader decodes; for a message of at least four bytes
   * the payload is everything after its first four bytes, then four zeros.
   */
  lemma WireOfShape(w: seq<byte>)
    requires |w| <= INT32_MAX
    ensures DecodeBE32(WireOf(w)[..4]) == |w|
    ensures |WireOf(w)| == 4 + |w|
    ensures |w| >= 4 ==> WireOf(w)[4..] == w[4..] + Zeros(4)
  {
    DecodeEncodeBE32(|w|);
    assert WireOf(w)[..4] == EncodeBE32(|w|);
    if |w| >= 4 {
      assert (w + Zeros(4))[4..|w| + 4] == w[4..] + Zeros(4);
    }
  }

  /** `true` when the four bytes at `at` announce a non-negative length whose field ends inside the buffer. */
  predicate FieldFits(b: seq<byte>, at: nat) {
    at + 4 <= |b| && 0 <= DecodeBE32(b[at..at + 4]) && at + 4 + DecodeBE32(b[at..at + 4]) <= |b|
  }

  /** The bytes of the length-prefixed field at `at`. */
  function FieldAt(b: seq<byte>, at: nat): (s: seq<byte>)
    requires FieldFits(b, at)
    ensures |s| <= INT32_MAX && at + |Field(s)| <= |b| && b[at..at + |Field(s)|] == Field(s)
  {
    EncodeDecodeBE32(b[at..at + 4]);
    b[at + 4..at + 4 + DecodeBE32(b[at..at + 4])]
  }

  /** Reading a field where one was written gives back its bytes, whatever follows them. */
  lemma FieldAtField(b: seq<byte>, at: nat, s: seq<byte>)
    requires |s| <= INT32_MAX && at + 4 + |s| <= |b|
    requires b[at..at + 4 + |s|] == Field(s)
    ensures FieldFits(b, at) && FieldAt(b, at) == s
  {
    assert b[at..at + 4] == b[at..at + 4 + |s|][..4];
    DecodeEncodeBE32(|s|);
    assert b[at + 4..at + 4 + |s|] == b[at..at + 4 + |s|][4..];
  }

  /** A field written after `prefix` reads back at offset |prefix|, whatever follows it. */
  lemma FieldAfter(prefix: seq<byte>, s: seq<byte>, rest: seq<byte>)
    requires |s| <= INT32_MAX
    ensures FieldFits(prefix + Field(s) + rest, |prefix|)
    ensures FieldAt(prefix + Field(s) + rest, |prefix|) == s
  {
    var b := prefix + Field(s) + rest;
    assert b[|prefix|..|prefix| + 4 + |s|] == Field(s);
    FieldAtField(b, |prefix|, s);
  }

  /** Two fields written one after the other read back in turn. */
  lemma TwoFields(prefix: seq<byte>, a: seq<byte>, b: seq<byte>, rest: seq<byte>)
    requires |a| <= INT32_MAX && |b| <= INT32_MAX
    ensures var w := prefix + Field(a) + Field(b) + rest;
      && FieldFits(w, |prefix|) && FieldAt(w, |prefix|) == a
      && FieldFits(w, |prefix| + 4 + |a|) && FieldAt(w, |prefix| + 4 + |a|) == b
  {
    var f0, f1 := Field(a), Field(b);
    assert prefix + f0 + f1 + rest == prefix + f0 + (f1 + rest);
    FieldAfter(prefix, a, f1 + rest);
    FieldAfter(prefix + f0, b, rest);
  }

  /**
   * C's `(b0 << 24) | (b1 << 16) | (b2 << 8) | b3` in the commented-out
   * ReadInt32, whose operands are read from a `char` buffer and so, where
   * `char` is signed, are sign-extended: a byte of 0x80 or more is a negative
   * `int` whose higher byte lanes are all 0xFF, and OR-ing it sets those
   * lanes of the result.
   */
  function ReadInt32AsWritten(b: seq<byte>): (n: int)
    requires |b| == 4
    ensures IsInt32(n)
    ensures b[1] < 128 && b[2] < 128 && b[3] < 128 ==> n == DecodeBE32(b)
    ensures b[3] >= 128 ==> -128 <= n < 0
  {
    var neg1, neg2, neg3 := b[1] >= 128, b[2] >= 128, b[3] >= 128;
    DecodeBE32([if neg1 || neg2 || neg3 then 255 else b[0],
                if neg2 || neg3 then 255 else b[1],
                if neg3 then 255 else b[2],
                b[3]])
  }

  /** The as-written ReadInt32 does not invert WriteInt32: 128 comes back as -128. */
  lemma ReadInt32AsWrittenLoses128()
    ensures EncodeBE32(128) == [0, 0, 0, 128]
    ensures ReadInt32AsWritten(EncodeBE32(128)) == -128
  {
  }

  /**
   * For the non-negative values it is used on (string lengths), the
   * as-written ReadInt32 inverts WriteInt32 exactly when the three low bytes
   * are all below 0x80.
   */
  lemma ReadInt32AsWrittenRoundTrip(n: int)
    requires 0 <= n <= INT32_MAX
    ensures var b := EncodeBE32(n);
      ReadInt32AsWritten(b) == n <==> (b[1] < 128 && b[2] < 128 && b[3] < 128)
  {
    var b := EncodeBE32(n);
    DecodeEncodeBE32(n);
    var lanes := [if b[1] >= 128 || b[2] >= 128 || b[3] >= 128 then 255 else b[0],
                  if b[2] >= 128 || b[3] >= 128 then 255 else b[1],
                  if b[3] >= 128 then 255 else b[2],
                  b[3]];
    if b[1] < 128 && b[2] < 128 && b[3] < 128 {
      assert lanes == b;
    } else {
      assert b[0] < 128;
      assert lanes[0] != b[0];
      DecodeBE32Injective(lanes, b);
    }
  }

  class Message {
    var bytes: array<byte>
    var index: nat
    var length: nat

    ghost predicate Valid()
      reads this
    {
      bytes.Length == MESSAGE_SIZE && index <= MESSAGE_SIZE
    }

    /**
     * The message is being built: the cursor sits at the end of the written
     * bytes and everything after them is still the zero fill.
     */
    ghost predicate Appending()
      reads this, bytes
      requires Valid()
    {
      index == length && ZeroFrom(bytes[..], length)
    }

    /** The bytes written so far. */
    ghost function Written(): (w: seq<byte>)
      reads this, bytes
      requires Valid() && length <= MESSAGE_SIZE
    {
      bytes[..length]
    }

    /** An empty message; the buffer C leaves uninitialised is modelled as zeros. */
    constructor ()
      ensures Valid() && fresh(bytes)
      ensures index == 0 && length == 0 && bytes[..] == Zeros(MESSAGE_SIZE)
      ensures Appending() && Written() == []
    {
      bytes := new byte[MESSAGE_SIZE](_ => 0);
      index, length := 0, 0;
    }

    /** The number of bytes written. */
    function MessageLength(): (n: int)
      reads this, bytes
      ensures n >= 0
      ensures Valid() && length <= MESSAGE_SIZE ==> n == |Written()|
    {
      length
    }

    /** The whole buffer, written or not. */
    function MessageBytes(): (b: seq<byte>)
      reads this, bytes
      requires Valid()
      ensures |b| == MESSAGE_SIZE && (length <= MESSAGE_SIZE ==> b[..length] == Written())
    {
      bytes[..]
    }

    /** The `n` bytes at `&bytes[4]`, the pointer MessageContent returns. */
    function MessageContent(n: nat): (c: seq<byte>)
      reads this, bytes
      requires Valid() && 4 + n <= MESSAGE_SIZE
      ensures |c| == n
    {
      bytes[4..4 + n]
    }

    /** Stores the four big-endian bytes of `n` at the cursor. */
    method WriteInt32(n: int)
      requires Valid() && IsInt32(n) && index + 4 <= MESSAGE_SIZE
      modifies this, bytes
      ensures Valid() && bytes == old(bytes)
      ensures bytes[..] == Overwrite(old(bytes[..]), old(index), EncodeBE32(n))
      ensures index == old(index) + 4 && length == old(length) + 4
      ensures old(Appending()) ==> Appending() && Written() == old(Written()) + EncodeBE32(n)
    {
      ghost var before := bytes[..];
      var u := n % TWO_32;
      bytes[index] := u / 0x100_0000;
      bytes[index + 1] := (u / 0x1_0000) % 256;
      bytes[index + 2] := (u / 0x100) % 256;
      bytes[index + 3] := u % 256;
      index := index + 4;
      length := length + 4;
      assert bytes[..] == Overwrite(before, old(index), EncodeBE32(n));
      if old(Appending()) {
        OverwriteAtEnd(before, old(index), EncodeBE32(n));
      }
    }

    /** Copies the first `n` bytes of `src` to the cursor (the memcpy of WriteString and WriteBytes). */
    method CopyIn(src: seq<byte>, n: nat)
      requires Valid() && n <= |src| && index + n <= MESSAGE_SIZE
      modifies this, bytes
      ensures Valid() && bytes == old(bytes)
      ensures bytes[..] == Overwrite(old(bytes[..]), old(index), src[..n])
      ensures index == old(index) + n && length == old(length) + n
      ensures old(Appending()) ==> Appending() && Written() == old(Written()) + src[..n]
    {
      ghost var before := bytes[..];
      var k := 0;
      while k < n
        invariant Valid() && bytes == old(bytes)
        invariant 0 <= k <= n && index == old(index) && length == old(length)
        invariant forall j :: 0 <= j < MESSAGE_SIZE ==>
          bytes[j] == (if index <= j < index + k then src[j - index] else before[j])
      {
        bytes[index + k] := src[k];
        k := k + 1;
      }
      index := index + n;
      length := length + n;
      assert bytes[..] == Overwrite(before, old(index), src[..n]);
      if old(Appending()) {
        OverwriteAtEnd(before, old(index), src[..n]);
      }
    }

    /** Writes `strLength` as a big-endian length, then the first `strLength` bytes of `str`. */
    method WriteString(str: seq<byte>, strLength: nat)
      requires Valid() && strLength <= |str| && strLength <= INT32_MAX
      requires index + 4 + strLength <= MESSAGE_SIZE
      modifies this, bytes
      ensures Valid() && bytes == old(bytes)
      ensures bytes[..] == Overwrite(old(bytes[..]), old(index), Field(str[..strLength]))
      ensures index == old(index) + 4 + strLength && length == old(length) + 4 + strLength
      ensures old(Appending()) ==> Appending() && Written() == old(Written()) + Field(str[..strLength])
    {
      WriteInt32(strLength);
      CopyIn(str, strLength);
      OverwriteTwice(old(bytes[..]), old(index), EncodeBE32(strLength), str[..strLength]);
    }

    /** Writes the C string in `str` (up to its first NUL) as a length-prefixed field. */
    method WriteNullString(str: seq<byte>)
      requires Valid() && |str| <= INT32_MAX && index + 4 + |CStr(str)| <= MESSAGE_SIZE
      modifies this, bytes
      ensures Valid() && bytes == old(bytes)
      ensures bytes[..] == Overwrite(old(bytes[..]), old(index), Field(CStr(str)))
      ensures index == old(index) + 4 + |CStr(str)| && length == old(length) + 4 + |CStr(str)|
      ensures old(Appending()) ==> Appending() && Written() == old(Written()) + Field(CStr(str))
    {
      WriteString(str, |CStr(str)|);
    }

    /** Writes the `%d` text of `number` as a length-prefixed field. */
    method WriteNumber(number: int)
      requires Valid() && IsInt32(number) && index + 4 + |Decimal(number)| <= MESSAGE_SIZE
      modifies this, bytes
      ensures Valid() && bytes == old(bytes)
      ensures bytes[..] == Overwrite(old(bytes[..]), old(index), Field(Decimal(number)))
      ensures index == old(index) + 4 + |Decimal(number)|
      ensures length == old(length) + 4 + |Decimal(number)|
      ensures old(Appending()) ==> Appending() && Written() == old(Written()) + Field(Decimal(number))
    {
      var buffer := Decimal(number);
      DecimalInt32Length(number);
      WriteString(buffer, |buffer|);
    }

    /** Stores one byte at the cursor. */
    method WriteByte(b: byte)
      requires Valid() && index + 1 <= MESSAGE_SIZE
      modifies this, bytes
      ensures Valid() && bytes == old(bytes)
      ensures bytes[..] == Overwrite(old(bytes[..]), old(index), [b])
      ensures index == old(index) + 1 && length == old(length) + 1
      ensures old(Appending()) ==> Appending() && Written() == old(Written()) + [b]
    {
      ghost var before := bytes[..];
      bytes[index] := b;
      index := index + 1;
      length := length + 1;
      assert bytes[..] == Overwrite(before, old(index), [b]);
      if old(Appending()) {
        OverwriteAtEnd(before, old(index), [b]);
      }
    }

    /** Stores the first `n` bytes of `src` at the cursor, without a length prefix. */
    method WriteBytes(src: seq<byte>, n: nat)
      requires Valid() && n <= |src| && index + n <= MESSAGE_SIZE
      modifies this, bytes
      ensures Valid() && bytes == old(bytes)
      ensures bytes[..] == Overwrite(old(bytes[..]), old(index), src[..n])
      ensures index == old(index) + n && length == old(length) + n
      ensures old(Appending()) ==> Appending() && Written() == old(Written()) + src[..n]
    {
      CopyIn(src, n);
    }

    /** Moves the cursor back to the start; the content and its length stay. */
    method Rewind()
      requires Valid()
      modifies this`index
      ensures Valid() && index == 0
    {
      index := 0;
    }

    /** Reads the big-endian C `int` at the cursor, with unsigned bytes. */
    method ReadInt32() returns (r: int)
      requires Valid() && index + 4 <= MESSAGE_SIZE
      modifies this`index
      ensures Valid() && index == old(index) + 4
      ensures r == DecodeBE32(bytes[old(index)..index])
    {
      var b0, b1, b2, b3 := bytes[index], bytes[index + 1], bytes[index + 2], bytes[index + 3];
      index := index + 4;
      r := DecodeBE32([b0, b1, b2, b3]);
      assert bytes[old(index)..index] == [b0, b1, b2, b3];
    }

    /** Reads the length-prefixed field at the cursor and moves the cursor past it. */
    method ReadString() returns (s: seq<byte>)
      requires Valid() && FieldFits(bytes[..], index)
      modifies this`index
      ensures Valid() && s == FieldAt(bytes[..], old(index))
      ensures index == old(index) + 4 + |s|
    {
      var strLength := ReadInt32();
      assert bytes[..][old(index)..old(index) + 4] == bytes[old(index)..index];
      s := bytes[index..index + strLength];
      index := index + strLength;
    }
  }

  /**
   * Send's frame for `m`: the big-endian MessageLength, then MessageLength
   * bytes read from MessageContent, which starts four bytes into the buffer.
   */
  function Frame(m: Message): (frame: seq<byte>)
    reads m, m.bytes
    requires m.Valid() && 4 + m.length <= MESSAGE_SIZE
    ensures |frame| == 4 + m.length
  {
    EncodeBE32(m.length) + m.MessageContent(m.length)
  }

  /**
   * When nothing was stored past the written bytes, MessageContent paired
   * with MessageLength yields the written bytes from offset 4 on, then zero fill.
   */
  lemma ContentPastWritten(m: Message)
    requires m.Valid() && 4 + m.length <= MESSAGE_SIZE && ZeroFrom(m.bytes[..], m.length)
    ensures m.MessageContent(m.length) == (m.Written() + Zeros(4))[4..m.length + 4]
  {
    var w := m.Written();
    forall j | 4 <= j < 4 + m.length
      ensures m.bytes[j] == (w + Zeros(4))[j]
    {
      if j >= m.length {
        assert m.bytes[..][j] == 0;
      }
    }
  }

  /** The frame of a message under construction is WireOf of what was written. */
  lemma FrameOfAppending(m: Message)
    requires m.Valid() && m.Appending() && 4 + m.length <= MESSAGE_SIZE
    ensures Frame(m) == WireOf(m.Written())
  {
    ContentPastWritten(m);
  }

  /** A string written to a fresh message comes back from ReadString after Rewind. */
  method WriteStringThenRead(str: seq<byte>) returns (back: seq<byte>, advanced: nat)
    requires 4 + |str| <= MESSAGE_SIZE
    ensures back == str && advanced == 4 + |str|
  {
    var m := new Message();
    m.WriteString(str, |str|);
    m.Rewind();
    OverwriteAtEnd(Zeros(MESSAGE_SIZE), 0, Field(str));
    FieldAtField(m.bytes[..], 0, str);
    back := m.ReadString();
    advanced := m.index;
  }

  /** WriteNumber(10) writes 00 00 00 02 '1' '0', and WriteNumber(-7) writes 00 00 00 02 '-' '7'. */
  lemma NumberFieldExamples()
    ensures Field(Decimal(10)) == [0, 0, 0, 2, 49, 48]
    ensures Field(Decimal(-7)) == [0, 0, 0, 2, 45, 55]
  {
    assert Digits(10) == Digits(1) + [48];
    assert EncodeBE32(2) == [0, 0, 0, 2];
  }

  /** A number field read back as a string and parsed as decimal text gives the number. */
  lemma NumberFieldRoundTrip(n: int, rest: seq<byte>)
    requires IsInt32(n)
    ensures |Decimal(n)| <= 11
    ensures FieldFits(Field(Decimal(n)) + rest, 0)
    ensures ParseDecimal(FieldAt(Field(Decimal(n)) + rest, 0)) == n
  {
    DecimalInt32Length(n);
    FieldAfter([], Decimal(n), rest);
    assert [] + Field(Decimal(n)) + rest == Field(Decimal(n)) + rest;
    DecimalRoundTrip(n);
  }

  /** A number written with WriteInt32 comes back from ReadInt32 after Rewind. */
  method WriteInt32ThenRead(n: int) returns (back: int)
    requires IsInt32(n)
    ensures back == n
  {
    var m := new Message();
    m.WriteInt32(n);
    m.Rewind();
    back := m.ReadInt32();
    DecodeEncodeBE32(n);
  }
}
