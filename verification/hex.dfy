/**
  Lowercase base16 encoding of bytes, as in section 8 of RFC 4648 with the
  lowercase alphabet. This is what `Hex.encodeHex` of Apache Commons Codec
  produces by default: each byte becomes two characters, high nibble first,
  looked up in the table "0123456789abcdef".

  `Decode` is not called by the application; it is the inverse against which
  the encoder is proved (an ETag determines the digest it was made from).
*/
module Hex {
  import opened Wrappers

  type byte = x: int | 0 <= x < 256

  /** The lowercase base16 alphabet: the digit for value n is Alphabet[n]. */
  const Alphabet: string := "0123456789abcdef"

  predicate IsHexChar(c: char) {
    ('0' <= c <= '9') || ('a' <= c <= 'f')
  }

  /** A string made of whole lowercase byte encodings. */
  predicate IsLowerHex(s: string) {
    |s| % 2 == 0 && forall i :: 0 <= i < |s| ==> IsHexChar(s[i])
  }

  /** The character for a 4-bit value, looked up in the alphabet table. */
  function Digit(n: int): (c: char)
    requires 0 <= n < 16
    ensures IsHexChar(c)
    ensures DigitValue(c) == Some(n)
  {
    Alphabet[n]
  }

  /** The 4-bit value of a lowercase hex character, or None for any other character. */
  function DigitValue(c: char): (r: Option<int>)
    ensures r.Some? <==> IsHexChar(c)
    ensures r.Some? ==> 0 <= r.value < 16 && Alphabet[r.value] == c
  {
    if '0' <= c <= '9' then Some(c as int - '0' as int)
    else if 'a' <= c <= 'f' then Some(c as int - 'a' as int + 10)
    else None
  }

  /** Two characters per byte, high nibble first. */
  function Encode(bytes: seq<byte>): (s: string)
    ensures |s| == 2 * |bytes|
    ensures IsLowerHex(s)
    ensures forall i :: 0 <= i < |bytes| ==>
              s[2 * i] == Alphabet[bytes[i] / 16] && s[2 * i + 1] == Alphabet[bytes[i] % 16]
  {
    if |bytes| == 0 then []
    else
      var rest := Encode(bytes[1..]);
      var s := [Digit(bytes[0] / 16), Digit(bytes[0] % 16)] + rest;
      assert forall i :: 1 <= i < |bytes| ==> bytes[1..][i - 1] == bytes[i];
      s
  }

  /** The bytes a lowercase hex string encodes; None for odd length or a foreign character. */
  function Decode(s: string): (r: Option<seq<byte>>)
    ensures r.Some? <==> IsLowerHex(s)
    ensures r.Some? ==> 2 * |r.value| == |s|
    decreases |s|
  {
    if |s| == 0 then Some([])
    else if |s| == 1 then None
    else
      match (DigitValue(s[0]), DigitValue(s[1]), Decode(s[2..]))
      case (Some(hi), Some(lo), Some(rest)) => Some([hi * 16 + lo] + rest)
      case _ => None
  }

  /** Decoding an encoding gives back the bytes. */
  lemma {:induction false} DecodeEncode(bytes: seq<byte>)
    ensures Decode(Encode(bytes)) == Some(bytes)
    decreases |bytes|
  {
    if |bytes| > 0 {
      var s := Encode(bytes);
      assert s[2..] == Encode(bytes[1..]);
      DecodeEncode(bytes[1..]);
      var b := bytes[0];
      assert b / 16 * 16 + b % 16 == b;
      assert [b] + bytes[1..] == bytes;
    }
  }

  /** Encoding what a lowercase hex string decodes to gives back the string. */
  lemma {:induction false} EncodeDecode(s: string)
    requires IsLowerHex(s)
    ensures Decode(s).Some? && Encode(Decode(s).value) == s
    decreases |s|
  {
    if |s| > 0 {
      assert IsLowerHex(s[2..]);
      EncodeDecode(s[2..]);
      var hi := DigitValue(s[0]).value;
      var lo := DigitValue(s[1]).value;
      var b := hi * 16 + lo;
      var bytes := Decode(s).value;
      assert bytes == [b] + Decode(s[2..]).value;
      assert bytes[1..] == Decode(s[2..]).value;
      assert b / 16 == hi && b % 16 == lo;
      assert s == [s[0], s[1]] + s[2..];
    }
  }

  /** Distinct byte strings have distinct encodings. */
  lemma EncodeInjective(a: seq<byte>, b: seq<byte>)
    requires Encode(a) == Encode(b)
    ensures a == b
  {
    DecodeEncode(a);
    DecodeEncode(b);
  }
}
