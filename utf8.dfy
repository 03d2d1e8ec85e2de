/**
 * `String.getBytes(StandardCharsets.UTF_8)` and `new String(bytes, StandardCharsets.UTF_8)`.
 *
 * Encoding is exact. Decoding is exact on well-formed UTF-8; at a position where no
 * well-formed sequence starts, the model emits one U+FFFD and moves on by one byte.
 */
module Utf8 {

  type byte = x: int | 0 <= x < 256

  const Replacement: char := '\U{FFFD}'

  predicate IsContinuation(x: byte) {
    0x80 <= x < 0xC0
  }

  /** The UTF-8 encoding of one Unicode scalar value: 1 to 4 bytes. */
  function EncodeChar(c: char): (r: seq<byte>)
    ensures 1 <= |r| <= 4
  {
    var v := c as int;
    if v < 0x80 then [v]
    else if v < 0x800 then [0xC0 + v / 64, 0x80 + v % 64]
    else if v < 0x10000 then [0xE0 + v / 4096, 0x80 + (v / 64) % 64, 0x80 + v % 64]
    else [0xF0 + v / 262144, 0x80 + (v / 4096) % 64, 0x80 + (v / 64) % 64, 0x80 + v % 64]
  }

  /** `getBytes(UTF_8)` */
  function Encode(s: string): (r: seq<byte>)
    ensures |r| >= |s|
  {
    if s == [] then [] else EncodeChar(s[0]) + Encode(s[1..])
  }

  /** The character starting at `b[0]` and the number of bytes it takes. */
  function DecodeChar(b: seq<byte>): (r: (char, nat))
    requires |b| > 0
    ensures 1 <= r.1 <= |b|
  {
    var b0: int := b[0];
    if b0 < 0x80 then
      (b0 as char, 1)
    else if 0xC2 <= b0 < 0xE0 then
      if |b| >= 2 && IsContinuation(b[1]) then
        var b1: int := b[1];
        (((b0 - 0xC0) * 64 + (b1 - 0x80)) as char, 2)
      else (Replacement, 1)
    else if 0xE0 <= b0 < 0xF0 then
      var lo := if b0 == 0xE0 then 0xA0 else 0x80;
      var hi := if b0 == 0xED then 0x9F else 0xBF;
      if |b| >= 3 && lo <= b[1] <= hi && IsContinuation(b[2]) then
        var b1: int, b2: int := b[1], b[2];
        (((b0 - 0xE0) * 4096 + (b1 - 0x80) * 64 + (b2 - 0x80)) as char, 3)
      else (Replacement, 1)
    else if 0xF0 <= b0 < 0xF5 then
      var lo := if b0 == 0xF0 then 0x90 else 0x80;
      var hi := if b0 == 0xF4 then 0x8F else 0xBF;
      if |b| >= 4 && lo <= b[1] <= hi && IsContinuation(b[2]) && IsContinuation(b[3]) then
        var b1: int, b2: int, b3: int := b[1], b[2], b[3];
        (((b0 - 0xF0) * 262144 + (b1 - 0x80) * 4096 + (b2 - 0x80) * 64 + (b3 - 0x80)) as char, 4)
      else (Replacement, 1)
    else
      (Replacement, 1)
  }

  /** `new String(bytes, UTF_8)` */
  function Decode(b: seq<byte>): (r: string)
    ensures |r| <= |b|
    decreases |b|
  {
    if b == [] then []
    else
      var (c, n) := DecodeChar(b);
      [c] + Decode(b[n..])
  }

  lemma DecodeEncodedTwo(v: int)
    requires 0x80 <= v < 0x800
    ensures 0xC2 <= 0xC0 + v / 64 < 0xE0 && (0xC0 + v / 64 - 0xC0) * 64 + v % 64 == v
  {
  }

  lemma DecodeEncodedThree(v: int)
    requires 0x800 <= v < 0x10000 && !(0xD800 <= v < 0xE000)
    ensures var b0, b1 := v / 4096, (v / 64) % 64;
      (b0 == 0 ==> 0x20 <= b1) && (b0 == 0xD ==> b1 < 0x20) && b0 * 4096 + b1 * 64 + v % 64 == v
  {
  }

  lemma DecodeEncodedFour(v: int)
    requires 0x10000 <= v < 0x110000
    ensures var b0, b1 := v / 262144, (v / 4096) % 64;
      b0 < 5 && (b0 == 0 ==> 0x10 <= b1) && (b0 == 4 ==> b1 < 0x10)
      && b0 * 262144 + b1 * 4096 + ((v / 64) % 64) * 64 + v % 64 == v
  {
  }

  lemma DecodeEncodedChar(c: char, rest: seq<byte>)
    ensures DecodeChar(EncodeChar(c) + rest) == (c, |EncodeChar(c)|)
  {
    var v := c as int;
    if 0x80 <= v < 0x800 {
      DecodeEncodedTwo(v);
    } else if 0x800 <= v < 0x10000 {
      DecodeEncodedThree(v);
    } else if 0x10000 <= v {
      DecodeEncodedFour(v);
    }
  }

  /** Decoding gives back every string that was encoded. */
  lemma {:induction false} DecodeEncode(s: string)
    ensures Decode(Encode(s)) == s
  {
    if s != [] {
      var e := EncodeChar(s[0]);
      DecodeEncodedChar(s[0], Encode(s[1..]));
      assert (e + Encode(s[1..]))[|e|..] == Encode(s[1..]);
      DecodeEncode(s[1..]);
      assert s == [s[0]] + s[1..];
    }
  }

  /** The encoding is injective: different strings never share their bytes. */
  lemma EncodeInjective(s: string, t: string)
    requires Encode(s) == Encode(t)
    ensures s == t
  {
    DecodeEncode(s);
    DecodeEncode(t);
  }

  /** Only the empty string encodes to no bytes. */
  lemma EncodeEmpty(s: string)
    ensures Encode(s) == [] <==> s == []
  {
  }
}
