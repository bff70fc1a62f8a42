/**
 * UTF-8 as the URL Standard uses it: "UTF-8 encode" of a scalar value string
 * and "UTF-8 decode without BOM", whose decoder turns each maximal ill-formed
 * subpart into one U+FFFD (section 4.1 of the WHATWG Encoding Standard).
 */
module Utf8 {

  /** An octet. */
  type byte = x: int | 0 <= x < 0x100

  const Replacement: char := '\U{FFFD}'

  predicate IsContinuation(b: byte) {
    0x80 <= b <= 0xBF
  }

  /** The one to four bytes that encode `c`. */
  function EncodeChar(c: char): (r: seq<byte>)
    ensures 1 <= |r| <= 4
    ensures (r[0] < 0x80) == (|r| == 1)
  {
    var x := c as int;
    if x < 0x80 then [x]
    else if x < 0x800 then [0xC0 + x / 0x40, 0x80 + x % 0x40]
    else if x < 0x1_0000 then [0xE0 + x / 0x1000, 0x80 + x / 0x40 % 0x40, 0x80 + x % 0x40]
    else [0xF0 + x / 0x4_0000, 0x80 + x / 0x1000 % 0x40, 0x80 + x / 0x40 % 0x40, 0x80 + x % 0x40]
  }

  /** UTF-8 encode. */
  function Encode(s: string): (r: seq<byte>)
    ensures |r| >= |s|
  {
    if s == [] then [] else EncodeChar(s[0]) + Encode(s[1..])
  }

  /**
   * One step of the decoder at the front of `b`: the scalar value read, or
   * U+FFFD for an ill-formed subpart, and the number of bytes consumed. A byte
   * that breaks a sequence is not consumed; it starts the next step.
   */
  function DecodeFirst(b: seq<byte>): (r: (char, nat))
    requires b != []
    ensures 1 <= r.1 <= |b| && r.1 <= 4
  {
    var b0 := b[0];
    if b0 < 0x80 then (b0 as char, 1)
    else if 0xC2 <= b0 <= 0xDF then
      if |b| < 2 || !IsContinuation(b[1]) then (Replacement, 1)
      else (((b0 as int - 0xC0) * 0x40 + (b[1] as int - 0x80)) as char, 2)
    else if 0xE0 <= b0 <= 0xEF then
      var lower := if b0 == 0xE0 then 0xA0 else 0x80;
      var upper := if b0 == 0xED then 0x9F else 0xBF;
      if |b| < 2 || !(lower <= b[1] <= upper) then (Replacement, 1)
      else if |b| < 3 || !IsContinuation(b[2]) then (Replacement, 2)
      else (((b0 as int - 0xE0) * 0x1000 + (b[1] as int - 0x80) * 0x40 + (b[2] as int - 0x80)) as char, 3)
    else if 0xF0 <= b0 <= 0xF4 then
      var lower := if b0 == 0xF0 then 0x90 else 0x80;
      var upper := if b0 == 0xF4 then 0x8F else 0xBF;
      if |b| < 2 || !(lower <= b[1] <= upper) then (Replacement, 1)
      else if |b| < 3 || !IsContinuation(b[2]) then (Replacement, 2)
      else if |b| < 4 || !IsContinuation(b[3]) then (Replacement, 3)
      else (((b0 as int - 0xF0) * 0x4_0000 + (b[1] as int - 0x80) * 0x1000
                 + (b[2] as int - 0x80) * 0x40 + (b[3] as int - 0x80)) as char, 4)
    else (Replacement, 1)
  }

  /** UTF-8 decode without BOM. */
  function Decode(b: seq<byte>): (s: string)
    ensures |s| <= |b|
    decreases |b|
  {
    if b == [] then []
    else
      var (c, n) := DecodeFirst(b);
      [c] + Decode(b[n..])
  }

  /** Bytes below 0x80 read as the characters with those code points. */
  function AsciiString(b: seq<byte>): (s: string)
    requires forall i :: 0 <= i < |b| ==> b[i] < 0x80
    ensures |s| == |b|
  {
    if b == [] then [] else [b[0] as char] + AsciiString(b[1..])
  }

  lemma {:induction false} EncodeAscii(b: seq<byte>)
    requires forall i :: 0 <= i < |b| ==> b[i] < 0x80
    ensures Encode(AsciiString(b)) == b
  {
    if b != [] {
      var s := AsciiString(b);
      assert s[0] == b[0] as char && s[1..] == AsciiString(b[1..]);
      EncodeAscii(b[1..]);
    }
  }

  lemma TwoByteDigits(x: int)
    requires 0x80 <= x < 0x800
    ensures 0xC2 <= 0xC0 + x / 0x40 <= 0xDF
    ensures (x / 0x40) * 0x40 + x % 0x40 == x
  {
  }

  lemma ThreeByteDigits(x: int)
    requires 0x800 <= x < 0x1_0000
    requires x < 0xD800 || 0xE000 <= x
    ensures x / 0x1000 < 0x10
    ensures x / 0x1000 == 0 ==> 0x20 <= x / 0x40 % 0x40
    ensures x / 0x1000 == 0xD ==> x / 0x40 % 0x40 < 0x20
    ensures (x / 0x1000) * 0x1000 + (x / 0x40 % 0x40) * 0x40 + x % 0x40 == x
  {
    var hi, mid, lo := x / 0x1000, x / 0x40 % 0x40, x % 0x40;
    assert x / 0x40 == hi * 0x40 + mid;
  }

  lemma FourByteDigits(x: int)
    requires 0x1_0000 <= x < 0x11_0000
    ensures 0 <= x / 0x4_0000 <= 4
    ensures x / 0x4_0000 == 0 ==> 0x10 <= x / 0x1000 % 0x40
    ensures x / 0x4_0000 == 4 ==> x / 0x1000 % 0x40 < 0x10
    ensures (x / 0x4_0000) * 0x4_0000 + (x / 0x1000 % 0x40) * 0x1000
            + (x / 0x40 % 0x40) * 0x40 + x % 0x40 == x
  {
    var top, hi, mid, lo := x / 0x4_0000, x / 0x1000 % 0x40, x / 0x40 % 0x40, x % 0x40;
    assert x / 0x1000 == top * 0x40 + hi;
    assert x / 0x40 == (x / 0x1000) * 0x40 + mid;
  }

  /** The decoder reads back exactly the character the encoder wrote. */
  lemma DecodeFirstEncodeChar(c: char, rest: seq<byte>)
    ensures DecodeFirst(EncodeChar(c) + rest) == (c, |EncodeChar(c)|)
  {
    var x := c as int;
    if x < 0x80 {
    } else if x < 0x800 {
      DecodeTwoBytes(c, rest);
    } else if x < 0x1_0000 {
      DecodeThreeBytes(c, rest);
    } else {
      DecodeFourBytes(c, rest);
    }
  }

  lemma DecodeTwoBytes(c: char, rest: seq<byte>)
    requires 0x80 <= c as int < 0x800
    ensures DecodeFirst(EncodeChar(c) + rest) == (c, 2)
  {
    var x := c as int;
    TwoByteDigits(x);
    var b := EncodeChar(c) + rest;
    assert b[0] == 0xC0 + x / 0x40 && b[1] == 0x80 + x % 0x40;
  }

  lemma DecodeThreeBytes(c: char, rest: seq<byte>)
    requires 0x800 <= c as int < 0x1_0000
    ensures DecodeFirst(EncodeChar(c) + rest) == (c, 3)
  {
    var x := c as int;
    ThreeByteDigits(x);
    var b := EncodeChar(c) + rest;
    assert b[0] == 0xE0 + x / 0x1000 && b[1] == 0x80 + x / 0x40 % 0x40 && b[2] == 0x80 + x % 0x40;
  }

  lemma DecodeFourBytes(c: char, rest: seq<byte>)
    requires 0x1_0000 <= c as int
    ensures DecodeFirst(EncodeChar(c) + rest) == (c, 4)
  {
    var x := c as int;
    FourByteDigits(x);
    var b := EncodeChar(c) + rest;
    assert b[0] == 0xF0 + x / 0x4_0000 && b[1] == 0x80 + x / 0x1000 % 0x40;
    assert b[2] == 0x80 + x / 0x40 % 0x40 && b[3] == 0x80 + x % 0x40;
  }

  /** Decoding inverts encoding. */
  lemma {:induction false} DecodeEncode(s: string)
    ensures Decode(Encode(s)) == s
  {
    if s != [] {
      var head := EncodeChar(s[0]);
      var tail := Encode(s[1..]);
      DecodeFirstEncodeChar(s[0], tail);
      assert (head + tail)[|head|..] == tail;
      DecodeEncode(s[1..]);
    }
  }
}
