/**
 UTF-8, as `String.toByteArray(Charsets.UTF_8)` and `ByteArray.toString(Charsets.UTF_8)`
 apply it to command lines and classpaths. Strings are sequences of Unicode
 scalar values.
 */
module Utf8 {
  import opened Base

  /** U+FFFD, what the decoder substitutes for a byte that starts no well-formed sequence. */
  const REPLACEMENT: char := '�'

  predicate IsCont(b: Byte) {
    0x80 <= b < 0xC0
  }

  /** The one to four bytes of one scalar value. */
  function EncodeChar(c: char): (r: seq<Byte>)
    ensures 1 <= |r| <= 4
  {
    var cp := c as int;
    if cp < 0x80 then [cp]
    else if cp < 0x800 then [0xC0 + cp / 64, 0x80 + cp % 64]
    else if cp < 0x10000 then [0xE0 + cp / 4096, 0x80 + (cp / 64) % 64, 0x80 + cp % 64]
    else [0xF0 + cp / 262144, 0x80 + (cp / 4096) % 64, 0x80 + (cp / 64) % 64, 0x80 + cp % 64]
  }

  /** `toByteArray(UTF_8)`. */
  function Encode(s: string): seq<Byte>
    decreases |s|
  {
    if |s| == 0 then [] else EncodeChar(s[0]) + Encode(s[1..])
  }

  function Value2(b0: Byte, b1: Byte): int {
    (b0 - 0xC0) * 64 + (b1 - 0x80)
  }

  function Value3(b0: Byte, b1: Byte, b2: Byte): int {
    (b0 - 0xE0) * 4096 + (b1 - 0x80) * 64 + (b2 - 0x80)
  }

  function Value4(b0: Byte, b1: Byte, b2: Byte, b3: Byte): int {
    (b0 - 0xF0) * 262144 + (b1 - 0x80) * 4096 + (b2 - 0x80) * 64 + (b3 - 0x80)
  }

  predicate WellFormed2(b: seq<Byte>) {
    |b| >= 2 && 0xC2 <= b[0] <= 0xDF && IsCont(b[1])
  }

  predicate WellFormed3(b: seq<Byte>) {
    && |b| >= 3 && 0xE0 <= b[0] <= 0xEF && IsCont(b[1]) && IsCont(b[2])
    && (b[0] == 0xE0 ==> b[1] >= 0xA0)
    && (b[0] == 0xED ==> b[1] < 0xA0)
  }

  predicate WellFormed4(b: seq<Byte>) {
    && |b| >= 4 && 0xF0 <= b[0] <= 0xF4 && IsCont(b[1]) && IsCont(b[2]) && IsCont(b[3])
    && (b[0] == 0xF0 ==> b[1] >= 0x90)
    && (b[0] == 0xF4 ==> b[1] < 0x90)
  }

  lemma Value3IsScalar(b: seq<Byte>)
    requires WellFormed3(b)
    ensures 0x800 <= Value3(b[0], b[1], b[2]) < 0xD800 || 0xE000 <= Value3(b[0], b[1], b[2]) < 0x10000
  {
  }

  lemma Value4IsScalar(b: seq<Byte>)
    requires WellFormed4(b)
    ensures 0x10000 <= Value4(b[0], b[1], b[2], b[3]) < 0x110000
  {
  }

  /** The scalar value at the front of `b` and the number of bytes it takes. */
  function DecodeOne(b: seq<Byte>): (r: (char, nat))
    requires |b| > 0
    ensures 1 <= r.1 <= |b|
  {
    if b[0] < 0x80 then (b[0] as char, 1)
    else if WellFormed2(b) then (Value2(b[0], b[1]) as char, 2)
    else if WellFormed3(b) then
      Value3IsScalar(b);
      (Value3(b[0], b[1], b[2]) as char, 3)
    else if WellFormed4(b) then
      Value4IsScalar(b);
      (Value4(b[0], b[1], b[2], b[3]) as char, 4)
    else (REPLACEMENT, 1)
  }

  /** `toString(UTF_8)`: every character comes from at least one byte. */
  function Decode(b: seq<Byte>): (r: string)
    ensures |r| <= |b|
    decreases |b|
  {
    if |b| == 0 then ""
    else
      var (c, n) := DecodeOne(b);
      [c] + Decode(b[n..])
  }

  lemma Arith2(cp: int)
    requires 0x80 <= cp < 0x800
    ensures 0xC2 <= 0xC0 + cp / 64 <= 0xDF
    ensures Value2(0xC0 + cp / 64, 0x80 + cp % 64) == cp
  {
  }

  lemma Arith3(cp: int)
    requires 0x800 <= cp < 0x10000
    requires cp < 0xD800 || 0xE000 <= cp
    ensures 0xE0 <= 0xE0 + cp / 4096 <= 0xEF
    ensures cp / 4096 == 0 ==> 0x80 + (cp / 64) % 64 >= 0xA0
    ensures cp / 4096 == 0xD ==> 0x80 + (cp / 64) % 64 < 0xA0
    ensures Value3(0xE0 + cp / 4096, 0x80 + (cp / 64) % 64, 0x80 + cp % 64) == cp
  {
  }

  lemma Arith4(cp: int)
    requires 0x10000 <= cp < 0x110000
    ensures 0xF0 <= 0xF0 + cp / 262144 <= 0xF4
    ensures cp / 262144 == 0 ==> 0x80 + (cp / 4096) % 64 >= 0x90
    ensures cp / 262144 == 4 ==> 0x80 + (cp / 4096) % 64 < 0x90
    ensures Value4(0xF0 + cp / 262144, 0x80 + (cp / 4096) % 64, 0x80 + (cp / 64) % 64, 0x80 + cp % 64) == cp
  {
  }

  /** One encoded scalar value is decoded back from the front of any stream. */
  lemma DecodeOneEncodeChar(c: char, rest: seq<Byte>)
    ensures DecodeOne(EncodeChar(c) + rest) == (c, |EncodeChar(c)|)
  {
    var b := EncodeChar(c) + rest;
    var cp := c as int;
    if cp < 0x80 {
    } else if cp < 0x800 {
      Arith2(cp);
      assert b[0] == 0xC0 + cp / 64 && b[1] == 0x80 + cp % 64;
      assert WellFormed2(b);
    } else if cp < 0x10000 {
      Arith3(cp);
      assert b[0] == 0xE0 + cp / 4096 && b[1] == 0x80 + (cp / 64) % 64 && b[2] == 0x80 + cp % 64;
      assert !WellFormed2(b);
      assert WellFormed3(b);
    } else {
      Arith4(cp);
      assert b[0] == 0xF0 + cp / 262144 && b[1] == 0x80 + (cp / 4096) % 64;
      assert b[2] == 0x80 + (cp / 64) % 64 && b[3] == 0x80 + cp % 64;
      assert !WellFormed2(b) && !WellFormed3(b);
      assert WellFormed4(b);
    }
  }

  /** Round trip: decoding the UTF-8 bytes of any string gives back the string. */
  lemma {:induction false} DecodeEncode(s: string)
    ensures Decode(Encode(s)) == s
    decreases |s|
  {
    if |s| > 0 {
      var e := EncodeChar(s[0]);
      DecodeOneEncodeChar(s[0], Encode(s[1..]));
      assert (e + Encode(s[1..]))[|e|..] == Encode(s[1..]);
      DecodeEncode(s[1..]);
      assert s == [s[0]] + s[1..];
    }
  }

  /** Encoding is per character, so it distributes over concatenation. */
  lemma {:induction false} EncodeAppend(a: string, b: string)
    ensures Encode(a + b) == Encode(a) + Encode(b)
    decreases |a|
  {
    if |a| > 0 {
      assert (a + b)[0] == a[0] && (a + b)[1..] == a[1..] + b;
      EncodeAppend(a[1..], b);
      assert Encode(a + b) == EncodeChar(a[0]) + (Encode(a[1..]) + Encode(b));
    } else {
      assert a + b == b;
    }
  }

  /** Every character takes between one and four bytes. */
  lemma {:induction false} EncodeLength(s: string)
    ensures |s| <= |Encode(s)| <= 4 * |s|
    decreases |s|
  {
    if |s| > 0 {
      EncodeLength(s[1..]);
    }
  }
}
