/**
 * Hexadecimal text to bytes as Node's Buffer.from(text, "hex") does it:
 * each pair of hex digits (either case) is one byte; decoding stops at the
 * first pair that is not two hex digits, and a final unpaired character is
 * dropped. The encoding direction is the base16 alphabet of section 8 of
 * RFC 4648, in lower case.
 */
module Hex {
  import opened JsText

  type byte = b: int | 0 <= b < 256

  function Decode(s: string): (bytes: seq<byte>)
    ensures |bytes| <= |s| / 2
  {
    if |s| < 2 || !IsDigit(s[0], 16) || !IsDigit(s[1], 16) then []
    else [DigitValue(s[0]) * 16 + DigitValue(s[1])] + Decode(s[2..])
  }

  /** The lower-case hex digit of a value below 16. */
  function HexDigit(d: nat): (c: char)
    requires d < 16
    ensures IsDigit(c, 16) && DigitValue(c) == d
  {
    if d < 10 then '0' + d as char else 'a' + (d - 10) as char
  }

  function Encode(bytes: seq<byte>): (s: string)
    ensures |s| == 2 * |bytes|
    ensures AllDigits(s, 16)
  {
    if bytes == [] then []
    else [HexDigit(bytes[0] / 16), HexDigit(bytes[0] % 16)] + Encode(bytes[1..])
  }

  /** Decoding the encoding of some bytes, followed by any text, yields those bytes first. */
  lemma {:induction false} DecodeEncodeThen(bytes: seq<byte>, rest: string)
    ensures Decode(Encode(bytes) + rest) == bytes + Decode(rest)
  {
    if bytes == [] {
      assert Encode(bytes) + rest == rest;
    } else {
      DecodeEncodeFirst(bytes, rest);
      DecodeEncodeThen(bytes[1..], rest);
      assert bytes == [bytes[0]] + bytes[1..];
    }
  }

  /** The first encoded byte decodes back in front of the rest. */
  lemma DecodeEncodeFirst(bytes: seq<byte>, rest: string)
    requires bytes != []
    ensures Decode(Encode(bytes) + rest) == [bytes[0]] + Decode(Encode(bytes[1..]) + rest)
  {
    var b := bytes[0];
    var hi, lo := HexDigit(b / 16), HexDigit(b % 16);
    var tail := Encode(bytes[1..]) + rest;
    assert Encode(bytes) + rest == [hi, lo] + tail;
    DecodePair(hi, lo, tail);
    assert DigitValue(hi) * 16 + DigitValue(lo) == b;
  }

  /** Two hex digits in front of some text decode to one byte in front of the text's bytes. */
  lemma DecodePair(hi: char, lo: char, tail: string)
    requires IsDigit(hi, 16) && IsDigit(lo, 16)
    ensures Decode([hi, lo] + tail) == [DigitValue(hi) * 16 + DigitValue(lo)] + Decode(tail)
  {
    var s := [hi, lo] + tail;
    assert s[0] == hi && s[1] == lo;
    assert s[2..] == tail;
  }

  /** Decoding inverts encoding. */
  lemma DecodeEncode(bytes: seq<byte>)
    ensures Decode(Encode(bytes)) == bytes
  {
    DecodeEncodeThen(bytes, []);
    assert Encode(bytes) + [] == Encode(bytes);
    assert bytes + [] == bytes;
  }

  /**
   * Text after the last valid pair is ignored when it does not begin with a
   * pair of hex digits: a pair with a non-hex character, a single final
   * character, or nothing.
   */
  lemma DecodeStopsAtNonHex(bytes: seq<byte>, rest: string)
    requires |rest| < 2 || !IsDigit(rest[0], 16) || !IsDigit(rest[1], 16)
    ensures Decode(Encode(bytes) + rest) == bytes
  {
    DecodeEncodeThen(bytes, rest);
    assert Decode(rest) == [];
    assert bytes + [] == bytes;
  }
}
