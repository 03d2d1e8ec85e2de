/**
 * `java.util.Base64.getEncoder()` and `getDecoder()`: the basic alphabet of section 4
 * of RFC 4648, with `=` padding on output.
 *
 * The basic decoder accepts a final unit with or without its padding, ignores the
 * unused low bits of the last character, and rejects (`None`, the
 * `IllegalArgumentException`) any character outside the alphabet, a lone final
 * character, misplaced padding and anything after the padding.
 */
module Base64 {
  import opened Wrappers
  import Utf8

  type byte = Utf8.byte

  type sextet = x: int | 0 <= x < 64

  predicate IsAlphabet(c: char) {
    ('A' <= c <= 'Z') || ('a' <= c <= 'z') || ('0' <= c <= '9') || c == '+' || c == '/'
  }

  /** Table 1 of RFC 4648: the character for each 6-bit value. */
  function EncodeSextet(v: sextet): (c: char)
    ensures IsAlphabet(c)
  {
    if v < 26 then ('A' as int + v) as char
    else if v < 52 then ('a' as int + (v - 26)) as char
    else if v < 62 then ('0' as int + (v - 52)) as char
    else if v == 62 then '+'
    else '/'
  }

  /** The 6-bit value of an alphabet character. */
  function DecodeSextet(c: char): (v: sextet)
    requires IsAlphabet(c)
    ensures EncodeSextet(v) == c
  {
    if 'A' <= c <= 'Z' then c as int - 'A' as int
    else if 'a' <= c <= 'z' then c as int - 'a' as int + 26
    else if '0' <= c <= '9' then c as int - '0' as int + 52
    else if c == '+' then 62
    else 63
  }

  lemma DecodeEncodeSextet(v: sextet)
    ensures DecodeSextet(EncodeSextet(v)) == v
  {
  }

  /** A character of an encoded string: the alphabet or the pad. */
  predicate IsEncodedChar(c: char) {
    IsAlphabet(c) || c == '='
  }

  /** `Base64.getEncoder().encodeToString(b)` */
  function Encode(b: seq<byte>): (r: string)
    ensures |r| % 4 == 0 && (|r| == 0 <==> |b| == 0)
  {
    if |b| == 0 then ""
    else if |b| == 1 then
      [EncodeSextet(b[0] / 4), EncodeSextet((b[0] % 4) * 16), '=', '=']
    else if |b| == 2 then
      [EncodeSextet(b[0] / 4), EncodeSextet((b[0] % 4) * 16 + b[1] / 16), EncodeSextet((b[1] % 16) * 4), '=']
    else
      [EncodeSextet(b[0] / 4), EncodeSextet((b[0] % 4) * 16 + b[1] / 16),
       EncodeSextet((b[1] % 16) * 4 + b[2] / 64), EncodeSextet(b[2] % 64)] + Encode(b[3..])
  }

  /** The encoder writes only alphabet characters and the pad. */
  lemma {:induction false} EncodeAlphabet(b: seq<byte>)
    ensures forall i | 0 <= i < |Encode(b)| :: IsEncodedChar(Encode(b)[i])
    decreases |b|
  {
    if |b| >= 3 {
      EncodeAlphabet(b[3..]);
      EncodeUnit(b);
      var s, rest := Encode(b), Encode(b[3..]);
      forall i | 0 <= i < |s| ensures IsEncodedChar(s[i]) {
        if i >= 4 {
          assert s[i] == rest[i - 4];
        }
      }
    }
  }

  /** The number of alphabet characters at the start of `s`, at most four. */
  function LeadingAlphabet(s: string): (k: nat)
    ensures k <= 4 && k <= |s|
    ensures forall i | 0 <= i < k :: IsAlphabet(s[i])
    ensures k < 4 && k < |s| ==> !IsAlphabet(s[k])
  {
    if |s| >= 1 && IsAlphabet(s[0]) then
      if |s| >= 2 && IsAlphabet(s[1]) then
        if |s| >= 3 && IsAlphabet(s[2]) then
          if |s| >= 4 && IsAlphabet(s[3]) then 4 else 3
        else 2
      else 1
    else 0
  }

  /** The first byte of a unit, from its first two characters. */
  function Byte0(c0: char, c1: char): byte
    requires IsAlphabet(c0) && IsAlphabet(c1)
  {
    DecodeSextet(c0) * 4 + DecodeSextet(c1) / 16
  }

  function Byte1(c1: char, c2: char): byte
    requires IsAlphabet(c1) && IsAlphabet(c2)
  {
    (DecodeSextet(c1) % 16) * 16 + DecodeSextet(c2) / 4
  }

  function Byte2(c2: char, c3: char): byte
    requires IsAlphabet(c2) && IsAlphabet(c3)
  {
    (DecodeSextet(c2) % 4) * 64 + DecodeSextet(c3)
  }

  /** `Base64.getDecoder().decode(s)`; `None` where it throws `IllegalArgumentException`. */
  function Decode(s: string): (r: Option<seq<byte>>)
    ensures r.Some? ==> |r.value| <= |s|
  {
    if s == [] then Some([])
    else
      var k := LeadingAlphabet(s);
      if k == 4 then
        match Decode(s[4..])
        case None => None
        case Some(rest) => Some([Byte0(s[0], s[1]), Byte1(s[1], s[2]), Byte2(s[2], s[3])] + rest)
      else if k == |s| then
        // the input ends inside a unit that carries no padding
        if k == 2 then Some([Byte0(s[0], s[1])])
        else if k == 3 then Some([Byte0(s[0], s[1]), Byte1(s[1], s[2])])
        else None
      else if s[k] != '=' then None
      else if k == 2 && |s| == 4 && s[3] == '=' then Some([Byte0(s[0], s[1])])
      else if k == 3 && |s| == 4 then Some([Byte0(s[0], s[1]), Byte1(s[1], s[2])])
      else None
  }

  lemma RoundTripOne(b0: byte)
    ensures Byte0(EncodeSextet(b0 / 4), EncodeSextet((b0 % 4) * 16)) == b0
  {
    DecodeEncodeSextet(b0 / 4);
    DecodeEncodeSextet((b0 % 4) * 16);
  }

  lemma RoundTripTwo(b0: byte, b1: byte)
    ensures var c0, c1, c2 := EncodeSextet(b0 / 4), EncodeSextet((b0 % 4) * 16 + b1 / 16), EncodeSextet((b1 % 16) * 4);
      Byte0(c0, c1) == b0 && Byte1(c1, c2) == b1
  {
    DecodeEncodeSextet(b0 / 4);
    DecodeEncodeSextet((b0 % 4) * 16 + b1 / 16);
    DecodeEncodeSextet((b1 % 16) * 4);
  }

  lemma RoundTripThree(b0: byte, b1: byte, b2: byte)
    ensures var c0, c1 := EncodeSextet(b0 / 4), EncodeSextet((b0 % 4) * 16 + b1 / 16);
      var c2, c3 := EncodeSextet((b1 % 16) * 4 + b2 / 64), EncodeSextet(b2 % 64);
      Byte0(c0, c1) == b0 && Byte1(c1, c2) == b1 && Byte2(c2, c3) == b2
  {
    DecodeEncodeSextet(b0 / 4);
    DecodeEncodeSextet((b0 % 4) * 16 + b1 / 16);
    DecodeEncodeSextet((b1 % 16) * 4 + b2 / 64);
    DecodeEncodeSextet(b2 % 64);
  }

  lemma DecodeEncodeOne(b: seq<byte>)
    requires |b| == 1
    ensures Decode(Encode(b)) == Some(b)
  {
    DecodeEncodedOne(Encode(b), b);
  }

  /** Two alphabet characters and two pads decode to the one byte they encode. */
  lemma DecodeEncodedOne(s: string, b: seq<byte>)
    requires |b| == 1 && |s| == 4
    requires s[0] == EncodeSextet(b[0] / 4) && s[1] == EncodeSextet((b[0] % 4) * 16) && s[2] == '=' && s[3] == '='
    ensures Decode(s) == Some(b)
  {
    RoundTripOne(b[0]);
    assert LeadingAlphabet(s) == 2;
    assert b == [b[0]];
  }

  lemma DecodeEncodeTwo(b: seq<byte>)
    requires |b| == 2
    ensures Decode(Encode(b)) == Some(b)
  {
    DecodeEncodedTwo(Encode(b), b);
  }

  /** Three alphabet characters and one pad decode to the two bytes they encode. */
  lemma DecodeEncodedTwo(s: string, b: seq<byte>)
    requires |b| == 2 && |s| == 4
    requires s[0] == EncodeSextet(b[0] / 4) && s[1] == EncodeSextet((b[0] % 4) * 16 + b[1] / 16)
    requires s[2] == EncodeSextet((b[1] % 16) * 4) && s[3] == '='
    ensures Decode(s) == Some(b)
  {
    RoundTripTwo(b[0], b[1]);
    assert LeadingAlphabet(s) == 3;
    assert b == [b[0], b[1]];
  }

  lemma EncodeUnit(b: seq<byte>)
    requires |b| >= 3
    ensures var s := Encode(b);
      && |s| >= 4
      && s[0] == EncodeSextet(b[0] / 4) && s[1] == EncodeSextet((b[0] % 4) * 16 + b[1] / 16)
      && s[2] == EncodeSextet((b[1] % 16) * 4 + b[2] / 64) && s[3] == EncodeSextet(b[2] % 64)
      && s[4..] == Encode(b[3..])
  {
  }

  lemma DecodeUnit(s: string)
    requires |s| >= 4 && IsAlphabet(s[0]) && IsAlphabet(s[1]) && IsAlphabet(s[2]) && IsAlphabet(s[3])
    requires Decode(s[4..]).Some?
    ensures Decode(s) == Some([Byte0(s[0], s[1]), Byte1(s[1], s[2]), Byte2(s[2], s[3])] + Decode(s[4..]).value)
  {
    assert LeadingAlphabet(s) == 4;
  }

  lemma SplitUnit(b: seq<byte>)
    requires |b| >= 3
    ensures b == [b[0], b[1], b[2]] + b[3..]
  {
  }

  lemma DecodeEncodeStep(b: seq<byte>)
    requires |b| >= 3
    requires Decode(Encode(b[3..])) == Some(b[3..])
    ensures Decode(Encode(b)) == Some(b)
  {
    EncodeUnit(b);
    DecodeEncodedUnit(Encode(b), b);
  }

  /** A string that starts with the encoding of three bytes decodes to them, then to what its rest decodes to. */
  lemma DecodeEncodedUnit(s: string, b: seq<byte>)
    requires |b| >= 3 && |s| >= 4
    requires s[0] == EncodeSextet(b[0] / 4) && s[1] == EncodeSextet((b[0] % 4) * 16 + b[1] / 16)
    requires s[2] == EncodeSextet((b[1] % 16) * 4 + b[2] / 64) && s[3] == EncodeSextet(b[2] % 64)
    requires Decode(s[4..]) == Some(b[3..])
    ensures Decode(s) == Some(b)
  {
    RoundTripThree(b[0], b[1], b[2]);
    DecodeUnit(s);
    SplitUnit(b);
  }

  /** The decoder accepts everything the encoder produces and gives back the original bytes. */
  lemma {:induction false} DecodeEncode(b: seq<byte>)
    ensures Decode(Encode(b)) == Some(b)
    decreases |b|
  {
    if |b| == 1 {
      DecodeEncodeOne(b);
    } else if |b| == 2 {
      DecodeEncodeTwo(b);
    } else if |b| >= 3 {
      DecodeEncode(b[3..]);
      DecodeEncodeStep(b);
    }
  }

  /** Encoded text never contains the column delimiter `|`, the list delimiter `;`, a blank or a line break. */
  lemma EncodedChars(b: seq<byte>, i: int)
    requires 0 <= i < |Encode(b)|
    ensures var c := Encode(b)[i]; c != '|' && c != ';' && ' ' < c <= '~'
  {
    EncodeAlphabet(b);
  }

  /** Only the empty byte sequence encodes to the empty string. */
  lemma EncodeEmpty(b: seq<byte>)
    ensures Encode(b) == "" <==> b == []
  {
  }

  /** Base64 of UTF-8: the encoding of one text column or list element. */
  function EncodeText(s: string): (r: string)
    ensures r == "" <==> s == ""
    ensures forall i | 0 <= i < |r| :: IsEncodedChar(r[i])
  {
    Utf8.EncodeEmpty(s);
    EncodeAlphabet(Utf8.Encode(s));
    Encode(Utf8.Encode(s))
  }

  /** UTF-8 of Base64: the decoding of one text column or list element. */
  function DecodeText(s: string): Option<string> {
    match Decode(s)
    case None => None
    case Some(b) => Some(Utf8.Decode(b))
  }

  /** Every text survives the column encoding. */
  lemma DecodeEncodeText(s: string)
    ensures DecodeText(EncodeText(s)) == Some(s)
  {
    DecodeEncode(Utf8.Encode(s));
    Utf8.DecodeEncode(s);
  }
}
