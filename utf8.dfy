// UTF-8 as Rust's `String::from_utf8` accepts it and `str::as_bytes`
// produces it: the well-formed byte sequences of section 4 of RFC 3629.
// Dafny's `char` is a Unicode scalar value, so every `string` encodes.
module Utf8 {
  import opened Bytes
  import opened Wrappers

  predicate IsTail(b: byte) { 0x80 <= b <= 0xBF }

  /** The one- to four-byte encoding of one scalar value. */
  function EncodeChar(c: char): (r: seq<byte>)
    ensures 1 <= |r| <= 4
  {
    var n := c as int;
    if n < 0x80 then [n as byte]
    else if n < 0x800 then [(0xC0 + n / 64) as byte, (0x80 + n % 64) as byte]
    else if n < 0x10000 then
      [(0xE0 + n / 4096) as byte, (0x80 + (n / 64) % 64) as byte, (0x80 + n % 64) as byte]
    else
      [(0xF0 + n / 262144) as byte, (0x80 + (n / 4096) % 64) as byte,
       (0x80 + (n / 64) % 64) as byte, (0x80 + n % 64) as byte]
  }

  /** `s.as_bytes()`. */
  function Encode(s: string): (r: seq<byte>)
    ensures |r| >= |s|
    ensures s == [] <==> r == []
  {
    if s == [] then [] else EncodeChar(s[0]) + Encode(s[1..])
  }

  /** Decodes the first scalar value of `b`, giving the value and the number
      of bytes it took, or None when `b` does not start with a well-formed
      sequence (overlong forms, surrogates and values past U+10FFFF are
      refused). */
  function DecodeChar(b: seq<byte>): (r: Option<(char, nat)>)
    ensures r.Some? ==> 1 <= r.value.1 <= |b|
  {
    if |b| == 0 then None
    else
      var b0 := b[0] as int;
      if b0 < 0x80 then Some((b0 as char, 1))
      else if 0xC2 <= b0 <= 0xDF then
        if |b| >= 2 && IsTail(b[1]) then
          Some((((b0 - 0xC0) * 64 + (b[1] as int - 0x80)) as char, 2))
        else None
      else if 0xE0 <= b0 <= 0xEF then
        if |b| >= 3 && IsTail(b[1]) && IsTail(b[2])
           && (b0 == 0xE0 ==> b[1] >= 0xA0) && (b0 == 0xED ==> b[1] <= 0x9F) then
          Some((((b0 - 0xE0) * 4096 + (b[1] as int - 0x80) * 64 + (b[2] as int - 0x80)) as char, 3))
        else None
      else if 0xF0 <= b0 <= 0xF4 then
        if |b| >= 4 && IsTail(b[1]) && IsTail(b[2]) && IsTail(b[3])
           && (b0 == 0xF0 ==> b[1] >= 0x90) && (b0 == 0xF4 ==> b[1] <= 0x8F) then
          Some((((b0 - 0xF0) * 262144 + (b[1] as int - 0x80) * 4096
                 + (b[2] as int - 0x80) * 64 + (b[3] as int - 0x80)) as char, 4))
        else None
      else None
  }

  /** `String::from_utf8(b).ok()`. */
  function Decode(b: seq<byte>): (r: Option<string>)
    decreases |b|
  {
    if b == [] then Some([])
    else match DecodeChar(b)
      case None => None
      case Some((c, k)) =>
        match Decode(b[k..])
        case None => None
        case Some(rest) => Some([c] + rest)
  }

  predicate IsValid(b: seq<byte>) { Decode(b).Some? }

  lemma DecodeCharOfEncoding(c: char, rest: seq<byte>)
    ensures DecodeChar(EncodeChar(c) + rest) == Some((c, |EncodeChar(c)|))
  {
    var n := c as int;
    if n < 0x80 {
    } else if n < 0x800 {
      DecodeTwoByteChar(c, rest);
    } else if n < 0x10000 {
      DecodeThreeByteChar(c, rest);
    } else {
      DecodeFourByteChar(c, rest);
    }
  }

  lemma DecodeTwoByteChar(c: char, rest: seq<byte>)
    requires 0x80 <= c as int < 0x800
    ensures DecodeChar(EncodeChar(c) + rest) == Some((c, 2))
  {
    var n := c as int;
    assert (n / 64) * 64 + n % 64 == n;
  }

  lemma DecodeThreeByteChar(c: char, rest: seq<byte>)
    requires 0x800 <= c as int < 0x10000
    ensures DecodeChar(EncodeChar(c) + rest) == Some((c, 3))
  {
    var n := c as int;
    assert (n / 4096) * 4096 + ((n / 64) % 64) * 64 + n % 64 == n;
  }

  lemma DecodeFourByteChar(c: char, rest: seq<byte>)
    requires 0x10000 <= c as int
    ensures DecodeChar(EncodeChar(c) + rest) == Some((c, 4))
  {
    var n := c as int;
    assert (n / 262144) * 262144 + ((n / 4096) % 64) * 4096 + ((n / 64) % 64) * 64 + n % 64 == n;
  }

  lemma EncodingOfDecodedChar(b: seq<byte>)
    requires DecodeChar(b).Some?
    ensures EncodeChar(DecodeChar(b).value.0) == b[..DecodeChar(b).value.1]
  {
    var b0 := b[0] as int;
    if 0xC2 <= b0 <= 0xDF {
      EncodingOfTwoBytes(b);
    } else if 0xE0 <= b0 <= 0xEF {
      EncodingOfThreeBytes(b);
    } else if 0xF0 <= b0 <= 0xF4 {
      EncodingOfFourBytes(b);
    }
  }

  lemma EncodingOfTwoBytes(b: seq<byte>)
    requires DecodeChar(b).Some? && 0xC2 <= b[0] <= 0xDF
    ensures EncodeChar(DecodeChar(b).value.0) == b[..2]
  {
    var t1 := b[1] as int - 0x80;
    DivModUnique(b[0] as int - 0xC0, t1, 64);
  }

  lemma EncodingOfThreeBytes(b: seq<byte>)
    requires DecodeChar(b).Some? && 0xE0 <= b[0] <= 0xEF
    ensures EncodeChar(DecodeChar(b).value.0) == b[..3]
  {
    var b0 := b[0] as int;
    var t1, t2 := b[1] as int - 0x80, b[2] as int - 0x80;
    DivModUnique(b0 - 0xE0, t1 * 64 + t2, 4096);
    DivModUnique((b0 - 0xE0) * 64 + t1, t2, 64);
    DivModUnique(b0 - 0xE0, t1, 64);
  }

  lemma EncodingOfFourBytes(b: seq<byte>)
    requires DecodeChar(b).Some? && 0xF0 <= b[0] <= 0xF4
    ensures EncodeChar(DecodeChar(b).value.0) == b[..4]
  {
    var b0 := b[0] as int;
    var t1, t2, t3 := b[1] as int - 0x80, b[2] as int - 0x80, b[3] as int - 0x80;
    DivModUnique(b0 - 0xF0, t1 * 4096 + t2 * 64 + t3, 262144);
    DivModUnique((b0 - 0xF0) * 64 + t1, t2 * 64 + t3, 4096);
    DivModUnique(b0 - 0xF0, t1, 64);
    DivModUnique((b0 - 0xF0) * 4096 + t1 * 64 + t2, t3, 64);
    DivModUnique((b0 - 0xF0) * 64 + t1, t2, 64);
  }

  /** Every string survives `as_bytes` followed by `from_utf8`. */
  lemma {:induction false} DecodeEncode(s: string)
    ensures Decode(Encode(s)) == Some(s)
  {
    if s != [] {
      var e := EncodeChar(s[0]);
      DecodeCharOfEncoding(s[0], Encode(s[1..]));
      assert (e + Encode(s[1..]))[|e|..] == Encode(s[1..]);
      DecodeEncode(s[1..]);
      assert [s[0]] + s[1..] == s;
    }
  }

  /** A byte string that `from_utf8` accepts is the encoding of the string
      it yields. */
  lemma {:induction false} EncodeDecode(b: seq<byte>)
    requires Decode(b).Some?
    ensures Encode(Decode(b).value) == b
    decreases |b|
  {
    if b != [] {
      var ck := DecodeChar(b).value;
      EncodingOfDecodedChar(b);
      EncodeDecode(b[ck.1..]);
      var s := Decode(b).value;
      assert s[0] == ck.0 && s[1..] == Decode(b[ck.1..]).value;
      assert b[..ck.1] + b[ck.1..] == b;
    }
  }

  lemma {:induction false} EncodeAppend(s: string, t: string)
    ensures Encode(s + t) == Encode(s) + Encode(t)
  {
    if s == [] {
      assert s + t == t;
    } else {
      assert (s + t)[0] == s[0];
      assert (s + t)[1..] == s[1..] + t;
      EncodeAppend(s[1..], t);
    }
  }

  /** ASCII text is its own encoding, byte for byte. */
  function AsciiBytes(s: string): (r: seq<byte>)
    requires forall i :: 0 <= i < |s| ==> s[i] as int < 0x80
    ensures |r| == |s|
    ensures forall i :: 0 <= i < |s| ==> r[i] as int == s[i] as int
  {
    if s == [] then [] else [s[0] as int as byte] + AsciiBytes(s[1..])
  }

  lemma {:induction false} EncodeAscii(s: string)
    requires forall i :: 0 <= i < |s| ==> s[i] as int < 0x80
    ensures Encode(s) == AsciiBytes(s)
  {
    if s != [] {
      EncodeAscii(s[1..]);
    }
  }
}
