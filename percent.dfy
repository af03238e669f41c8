/** Percent-decoding as the `urlencoding` crate's `decode` does it: every
    `%` followed by two hexadecimal digits (either case) becomes the byte they
    spell, every other byte is kept, and the resulting bytes must be
    well-formed UTF-8. A `+` is not a space here. */
module Percent {
  import opened Wrappers
  import Utf8

  type byte = Utf8.byte

  const PercentSign: byte := 0x25

  /** The value of an ASCII hexadecimal digit. */
  function HexValue(b: byte): Option<nat> {
    if 0x30 <= b <= 0x39 then Some(b - 0x30)
    else if 0x41 <= b <= 0x46 then Some(b - 0x41 + 10)
    else if 0x61 <= b <= 0x66 then Some(b - 0x61 + 10)
    else None
  }

  /** An escape `%XY` starts at index `i`. */
  predicate EscapeAt(data: seq<byte>, i: nat) {
    i + 2 < |data| && data[i] == PercentSign && HexValue(data[i + 1]).Some? && HexValue(data[i + 2]).Some?
  }

  /** The byte-level decoder: escapes become bytes, everything else (a lone
      `%`, a `%` before a non-digit, a `%` too near the end) is copied. */
  function DecodeBytes(data: seq<byte>): (r: seq<byte>)
    ensures |r| <= |data|
    decreases |data|
  {
    if data == [] then []
    else if EscapeAt(data, 0) then
      var v := HexValue(data[1]).value * 16 + HexValue(data[2]).value;
      [v] + DecodeBytes(data[3..])
    else [data[0]] + DecodeBytes(data[1..])
  }

  /** `urlencoding::decode(s)`: None is the crate's UTF-8 error. */
  function Decode(s: string): Option<string> {
    Utf8.Decode(DecodeBytes(Utf8.Encode(s)))
  }

  /** Bytes without `%` pass through unchanged. */
  lemma {:induction false} DecodeBytesPlain(data: seq<byte>)
    requires forall i :: 0 <= i < |data| ==> data[i] != PercentSign
    ensures DecodeBytes(data) == data
  {
    if data != [] {
      DecodeBytesPlain(data[1..]);
    }
  }

  lemma EncodeHasNoPercent(s: string)
    requires forall i :: 0 <= i < |s| ==> s[i] != '%'
    ensures forall i :: 0 <= i < |Utf8.Encode(s)| ==> Utf8.Encode(s)[i] != PercentSign
  {
    if s != [] {
      EncodeHasNoPercent(s[1..]);
      var e := Utf8.EncodeChar(s[0]);
      assert Utf8.Encode(s) == e + Utf8.Encode(s[1..]);
      assert forall i :: 0 <= i < |e| ==> e[i] != PercentSign;
    }
  }

  /** A string without `%` decodes to itself. */
  lemma DecodePlain(s: string)
    requires forall i :: 0 <= i < |s| ==> s[i] != '%'
    ensures Decode(s) == Some(s)
  {
    EncodeHasNoPercent(s);
    DecodeBytesPlain(Utf8.Encode(s));
    Utf8.DecodeEncode(s);
  }

  /** Upper-case hexadecimal digit for a value below 16. */
  function HexDigit(v: nat): (b: byte)
    requires v < 16
    ensures HexValue(b) == Some(v)
  {
    if v < 10 then 0x30 + v else 0x41 + v - 10
  }

  /** Percent-encoding of every byte, the inverse the decoder is checked
      against. */
  function EscapeAll(data: seq<byte>): (r: seq<byte>)
    ensures |r| == 3 * |data|
  {
    if data == [] then []
    else [PercentSign, HexDigit(data[0] / 16), HexDigit(data[0] % 16)] + EscapeAll(data[1..])
  }

  /** Decoding undoes escaping, for every byte sequence. */
  lemma {:induction false} DecodeEscapeAll(data: seq<byte>)
    ensures DecodeBytes(EscapeAll(data)) == data
  {
    if data != [] {
      var e := EscapeAll(data);
      assert EscapeAt(e, 0);
      assert e[3..] == EscapeAll(data[1..]);
      DecodeEscapeAll(data[1..]);
    }
  }

  /** So a fully escaped string decodes back to the string. */
  lemma DecodeEscapedString(s: string, escaped: string)
    requires Utf8.Encode(escaped) == EscapeAll(Utf8.Encode(s))
    ensures Decode(escaped) == Some(s)
  {
    DecodeEscapeAll(Utf8.Encode(s));
    Utf8.DecodeEncode(s);
  }

  /** An escape of a byte that cannot start a UTF-8 sequence makes the
      whole decode fail: `%FF` is rejected. */
  lemma DecodeInvalidByte()
    ensures Decode("%FF") == None
  {
    var e := Utf8.Encode("%FF");
    assert e == [0x25, 0x46, 0x46];
    assert DecodeBytes(e) == [0xFF] + DecodeBytes([]);
  }
}
