/** UTF-8, as Rust's `String::from_utf8` / `str::from_utf8` accept it: the
    well-formed byte sequences of the Unicode standard (no overlong forms,
    no surrogates, nothing above U+10FFFF). `Decode` is the strict check;
    `Encode` is how a `str` is laid out in memory. */
module Utf8 {
  import opened Wrappers

  type byte = b: int | 0 <= b < 256

  predicate IsContinuation(b: byte) { 0x80 <= b < 0xC0 }

  /** The bytes of one character. */
  function EncodeChar(c: char): (r: seq<byte>)
    ensures 1 <= |r| <= 4
  {
    var n := c as int;
    if n < 0x80 then [n]
    else if n < 0x800 then [0xC0 + n / 64, 0x80 + n % 64]
    else if n < 0x10000 then [0xE0 + n / 4096, 0x80 + (n / 64) % 64, 0x80 + n % 64]
    else [0xF0 + n / 262144, 0x80 + (n / 4096) % 64, 0x80 + (n / 64) % 64, 0x80 + n % 64]
  }

  function Encode(s: string): seq<byte> {
    if s == [] then [] else EncodeChar(s[0]) + Encode(s[1..])
  }

  predicate IsScalar(n: int) { 0 <= n < 0xD800 || 0xE000 <= n < 0x11_0000 }

  /** The character at the front of `bs` and its length in bytes, if `bs`
      starts with a well-formed sequence. */
  function DecodeFirst(bs: seq<byte>): (r: Option<(char, nat)>)
    requires bs != []
    ensures r.Some? ==> 1 <= r.value.1 <= |bs| && r.value.1 <= 4
  {
    var b0: int := bs[0];
    if b0 < 0x80 then Some((b0 as char, 1))
    else if 0xC2 <= b0 <= 0xDF then
      if |bs| >= 2 && IsContinuation(bs[1]) then
        Some((Code2(b0, bs[1]) as char, 2))
      else None
    else if 0xE0 <= b0 <= 0xEF then
      var lo := if b0 == 0xE0 then 0xA0 else 0x80;
      var hi := if b0 == 0xED then 0xA0 else 0xC0;
      if |bs| >= 3 && lo <= bs[1] < hi && IsContinuation(bs[2]) then
        Some((Code3(b0, bs[1], bs[2]) as char, 3))
      else None
    else if 0xF0 <= b0 <= 0xF4 then
      var lo := if b0 == 0xF0 then 0x90 else 0x80;
      var hi := if b0 == 0xF4 then 0x90 else 0xC0;
      if |bs| >= 4 && lo <= bs[1] < hi && IsContinuation(bs[2]) && IsContinuation(bs[3]) then
        Some((Code4(b0, bs[1], bs[2], bs[3]) as char, 4))
      else None
    else None
  }

  /** The code point of a two-, three- or four-byte sequence. */
  function Code2(b0: int, b1: int): int {
    (b0 - 0xC0) * 64 + (b1 - 0x80)
  }

  function Code3(b0: int, b1: int, b2: int): int {
    (b0 - 0xE0) * 4096 + (b1 - 0x80) * 64 + (b2 - 0x80)
  }

  function Code4(b0: int, b1: int, b2: int, b3: int): int {
    (b0 - 0xF0) * 262144 + (b1 - 0x80) * 4096 + (b2 - 0x80) * 64 + (b3 - 0x80)
  }

  /** `String::from_utf8(bs)`: the decoded string, or None when `bs` is not
      well-formed UTF-8. */
  function Decode(bs: seq<byte>): Option<string>
    decreases |bs|
  {
    if bs == [] then Some([])
    else match DecodeFirst(bs)
      case None => None
      case Some((c, k)) =>
        match Decode(bs[k..])
        case None => None
        case Some(rest) => Some([c] + rest)
  }

  predicate IsValid(bs: seq<byte>) { Decode(bs).Some? }

  lemma EncodeAppend(s: string, t: string)
    ensures Encode(s + t) == Encode(s) + Encode(t)
  {
    if s != [] {
      assert (s + t)[0] == s[0];
      assert (s + t)[1..] == s[1..] + t;
      EncodeAppend(s[1..], t);
    } else {
      assert s + t == t;
    }
  }

  /** Decoding the encoding of a character gives the character back. */
  lemma DecodeFirstOfEncoded(c: char, rest: seq<byte>)
    ensures DecodeFirst(EncodeChar(c) + rest) == Some((c, |EncodeChar(c)|))
  {
    var n := c as int;
    if n < 0x80 {
    } else if n < 0x800 {
      Encoded2(n, rest);
    } else if n < 0x10000 {
      Encoded3(n, rest);
    } else {
      Encoded4(n, rest);
    }
  }

  lemma Encoded2(n: int, rest: seq<byte>)
    requires 0x80 <= n < 0x800
    ensures var bs := [0xC0 + n / 64, 0x80 + n % 64] + rest;
      0xC2 <= bs[0] <= 0xDF && IsContinuation(bs[1]) && Code2(bs[0], bs[1]) == n
  {
  }

  lemma Encoded3(n: int, rest: seq<byte>)
    requires 0x800 <= n < 0x10000 && IsScalar(n)
    ensures var bs := [0xE0 + n / 4096, 0x80 + (n / 64) % 64, 0x80 + n % 64] + rest;
      && 0xE0 <= bs[0] <= 0xEF
      && (if bs[0] == 0xE0 then 0xA0 else 0x80) <= bs[1] < (if bs[0] == 0xED then 0xA0 else 0xC0)
      && IsContinuation(bs[2]) && Code3(bs[0], bs[1], bs[2]) == n
  {
    var q := n / 4096;
    var m := (n / 64) % 64;
    assert n / 64 == q * 64 + m;
    assert n == (n / 64) * 64 + n % 64;
  }

  lemma Encoded4(n: int, rest: seq<byte>)
    requires 0x10000 <= n < 0x11_0000
    ensures var bs := [0xF0 + n / 262144, 0x80 + (n / 4096) % 64, 0x80 + (n / 64) % 64, 0x80 + n % 64] + rest;
      && 0xF0 <= bs[0] <= 0xF4
      && (if bs[0] == 0xF0 then 0x90 else 0x80) <= bs[1] < (if bs[0] == 0xF4 then 0x90 else 0xC0)
      && IsContinuation(bs[2]) && IsContinuation(bs[3]) && Code4(bs[0], bs[1], bs[2], bs[3]) == n
  {
    var q := n / 262144;
    var m1 := (n / 4096) % 64;
    var m2 := (n / 64) % 64;
    assert n / 4096 == q * 64 + m1;
    assert n / 64 == (n / 4096) * 64 + m2;
    assert n == (n / 64) * 64 + n % 64;
  }

  /** Round trip one way: every string is decoded from its own encoding. */
  lemma {:induction false} DecodeEncode(s: string)
    ensures Decode(Encode(s)) == Some(s)
  {
    if s != [] {
      var e := EncodeChar(s[0]);
      var bs := Encode(s);
      assert bs == e + Encode(s[1..]);
      DecodeFirstOfEncoded(s[0], Encode(s[1..]));
      assert bs[|e|..] == Encode(s[1..]);
      DecodeEncode(s[1..]);
      assert Decode(bs) == Some([s[0]] + s[1..]);
      assert [s[0]] + s[1..] == s;
    }
  }

  /** A well-formed first sequence is exactly the encoding of the character
      it decodes to. */
  lemma EncodedFirst(bs: seq<byte>)
    requires bs != [] && DecodeFirst(bs).Some?
    ensures EncodeChar(DecodeFirst(bs).value.0) == bs[..DecodeFirst(bs).value.1]
  {
    var b0: int := bs[0];
    if b0 < 0x80 {
    } else if b0 <= 0xDF {
      Split2(b0, bs[1]);
      assert EncodeChar(DecodeFirst(bs).value.0) == [bs[0], bs[1]];
    } else if b0 <= 0xEF {
      Split3(b0, bs[1], bs[2]);
      assert EncodeChar(DecodeFirst(bs).value.0) == [bs[0], bs[1], bs[2]];
    } else {
      Split4(b0, bs[1], bs[2], bs[3]);
      assert EncodeChar(DecodeFirst(bs).value.0) == [bs[0], bs[1], bs[2], bs[3]];
    }
  }

  lemma Split2(b0: int, b1: int)
    requires 0xC2 <= b0 <= 0xDF && 0x80 <= b1 < 0xC0
    ensures var n := Code2(b0, b1); 0x80 <= n < 0x800 && n / 64 == b0 - 0xC0 && n % 64 == b1 - 0x80
  {
  }

  lemma Split3(b0: int, b1: int, b2: int)
    requires 0xE0 <= b0 <= 0xEF && 0x80 <= b1 < 0xC0 && 0x80 <= b2 < 0xC0
    requires b0 == 0xE0 ==> b1 >= 0xA0
    ensures var n := Code3(b0, b1, b2);
      && 0x800 <= n < 0x10000
      && n / 4096 == b0 - 0xE0 && (n / 64) % 64 == b1 - 0x80 && n % 64 == b2 - 0x80
  {
    var n := Code3(b0, b1, b2);
    assert n / 64 == (b0 - 0xE0) * 64 + (b1 - 0x80);
  }

  lemma Split4(b0: int, b1: int, b2: int, b3: int)
    requires 0xF0 <= b0 <= 0xF4 && 0x80 <= b1 < 0xC0 && 0x80 <= b2 < 0xC0 && 0x80 <= b3 < 0xC0
    requires b0 == 0xF0 ==> b1 >= 0x90
    ensures var n := Code4(b0, b1, b2, b3);
      && 0x10000 <= n
      && n / 262144 == b0 - 0xF0 && (n / 4096) % 64 == b1 - 0x80
      && (n / 64) % 64 == b2 - 0x80 && n % 64 == b3 - 0x80
  {
    var n := Code4(b0, b1, b2, b3);
    assert n / 64 == ((b0 - 0xF0) * 64 + (b1 - 0x80)) * 64 + (b2 - 0x80);
    assert n / 4096 == (b0 - 0xF0) * 64 + (b1 - 0x80);
  }

  /** Round trip the other way: a byte sequence that decodes is the encoding
      of what it decodes to, so `Decode` accepts exactly the encodings. */
  lemma {:induction false} EncodeDecode(bs: seq<byte>)
    requires Decode(bs).Some?
    ensures Encode(Decode(bs).value) == bs
    decreases |bs|
  {
    if bs != [] {
      var (c, k) := DecodeFirst(bs).value;
      DecodeSplit(bs);
      EncodeDecode(bs[k..]);
      EncodeCons(c, Decode(bs[k..]).value);
    }
  }

  /** A decodable sequence is its first character's encoding followed by
      a decodable rest. */
  lemma DecodeSplit(bs: seq<byte>)
    requires bs != [] && Decode(bs).Some?
    ensures DecodeFirst(bs).Some?
    ensures var (c, k) := DecodeFirst(bs).value;
      && Decode(bs[k..]).Some?
      && Decode(bs).value == [c] + Decode(bs[k..]).value
      && bs == EncodeChar(c) + bs[k..]
  {
    var k := DecodeFirst(bs).value.1;
    EncodedFirst(bs);
    assert bs == bs[..k] + bs[k..];
  }

  lemma EncodeCons(c: char, s: string)
    ensures Encode([c] + s) == EncodeChar(c) + Encode(s)
  {
    assert ([c] + s)[0] == c && ([c] + s)[1..] == s;
  }

  /** ASCII text encodes byte for byte. */
  lemma EncodeAscii(s: string)
    requires forall i :: 0 <= i < |s| ==> s[i] as int < 0x80
    ensures |Encode(s)| == |s|
    ensures forall i :: 0 <= i < |s| ==> Encode(s)[i] == s[i] as int
  {
  }
}
