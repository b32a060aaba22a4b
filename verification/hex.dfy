/**
 Hexadecimal rendering of byte strings, as a byte buffer's "hex" encoding
 produces it (two digits per byte, most significant nibble first, no
 separators), together with a decoder that serves as its inverse.
 */
module Hex {
  import opened Wrappers

  predicate IsUpperDigit(c: char) {
    '0' <= c <= '9' || 'A' <= c <= 'F'
  }

  predicate IsLowerDigit(c: char) {
    '0' <= c <= '9' || 'a' <= c <= 'f'
  }

  /** The value of one hexadecimal digit of either case. */
  function DigitValue(c: char): (v: Option<nat>)
    ensures v.Some? ==> v.value < 16
    ensures v.Some? <==> IsUpperDigit(c) || IsLowerDigit(c)
  {
    if '0' <= c <= '9' then Some(c as int - '0' as int)
    else if 'A' <= c <= 'F' then Some(c as int - 'A' as int + 10)
    else if 'a' <= c <= 'f' then Some(c as int - 'a' as int + 10)
    else None
  }

  /** The digit for a nibble, in the requested case. */
  function Digit(n: nat, upper: bool): (c: char)
    requires n < 16
    ensures DigitValue(c) == Some(n)
    ensures upper ==> IsUpperDigit(c)
    ensures !upper ==> IsLowerDigit(c)
  {
    if n < 10 then ('0' as int + n) as char
    else if upper then ('A' as int + n - 10) as char
    else ('a' as int + n - 10) as char
  }

  /** Every character of `s` is a digit of the requested case. */
  predicate AllDigits(s: string, upper: bool) {
    forall i :: 0 <= i < |s| ==> (if upper then IsUpperDigit(s[i]) else IsLowerDigit(s[i]))
  }

  /** Two digits per byte, high nibble first. */
  function Encode(bytes: seq<bv8>, upper: bool): (s: string)
    ensures |s| == 2 * |bytes|
    ensures AllDigits(s, upper)
  {
    if bytes == [] then ""
    else [Digit(bytes[0] as int / 16, upper), Digit(bytes[0] as int % 16, upper)] + Encode(bytes[1..], upper)
  }

  /** Byte i of the input is written at positions 2i (its high nibble) and 2i+1 (its low nibble). */
  lemma {:induction false} EncodeNibbles(bytes: seq<bv8>, upper: bool)
    ensures var s := Encode(bytes, upper);
      forall i :: 0 <= i < |bytes| ==>
        DigitValue(s[2 * i]) == Some(bytes[i] as int / 16) && DigitValue(s[2 * i + 1]) == Some(bytes[i] as int % 16)
  {
    if bytes != [] {
      EncodeNibbles(bytes[1..], upper);
      EncodeStep(bytes, upper, Encode(bytes[1..], upper));
    }
  }

  /** Two digits for the first byte in front of the tail's digits keep the tail's nibble positions. */
  lemma EncodeStep(bytes: seq<bv8>, upper: bool, rest: string)
    requires bytes != [] && |rest| == 2 * (|bytes| - 1)
    requires forall i :: 0 <= i < |bytes| - 1 ==>
      DigitValue(rest[2 * i]) == Some(bytes[1..][i] as int / 16) && DigitValue(rest[2 * i + 1]) == Some(bytes[1..][i] as int % 16)
    ensures var s := [Digit(bytes[0] as int / 16, upper), Digit(bytes[0] as int % 16, upper)] + rest;
      forall i :: 0 <= i < |bytes| ==>
        DigitValue(s[2 * i]) == Some(bytes[i] as int / 16) && DigitValue(s[2 * i + 1]) == Some(bytes[i] as int % 16)
  {
    var s := [Digit(bytes[0] as int / 16, upper), Digit(bytes[0] as int % 16, upper)] + rest;
    forall i | 0 <= i < |bytes|
      ensures DigitValue(s[2 * i]) == Some(bytes[i] as int / 16) && DigitValue(s[2 * i + 1]) == Some(bytes[i] as int % 16)
    {
      if i > 0 {
        assert s[2 * i] == rest[2 * (i - 1)] && s[2 * i + 1] == rest[2 * (i - 1) + 1];
        assert bytes[1..][i - 1] == bytes[i];
      }
    }
  }

  /** Reads pairs of digits of either case; fails on an odd length or a non-digit. */
  function Decode(s: string): (r: Option<seq<bv8>>)
    ensures r.Some? ==> 2 * |r.value| == |s|
  {
    if s == [] then Some([])
    else if |s| == 1 then None
    else
      match (DigitValue(s[0]), DigitValue(s[1]), Decode(s[2..]))
      case (Some(hi), Some(lo), Some(rest)) => Some([(hi * 16 + lo) as bv8] + rest)
      case _ => None
  }

  /** Decoding an encoding gives the bytes back, in either case. */
  lemma {:induction false} DecodeEncode(bytes: seq<bv8>, upper: bool)
    ensures Decode(Encode(bytes, upper)) == Some(bytes)
  {
    if bytes != [] {
      var b := bytes[0];
      var s := Encode(bytes, upper);
      var hi, lo := b as int / 16, b as int % 16;
      assert s == [Digit(hi, upper), Digit(lo, upper)] + Encode(bytes[1..], upper);
      assert s[2..] == Encode(bytes[1..], upper);
      DecodeEncode(bytes[1..], upper);
      ByteFromNibbles(b);
      DecodeStep(s, hi, lo, bytes[1..]);
      assert [b] + bytes[1..] == bytes;
    }
  }

  /** A byte is rebuilt from its two nibbles. */
  lemma ByteFromNibbles(b: bv8)
    ensures (b as int / 16 * 16 + b as int % 16) as bv8 == b
  {
  }

  /** One step of Decode: two digits followed by a decodable rest. */
  lemma DecodeStep(s: string, hi: nat, lo: nat, rest: seq<bv8>)
    requires hi < 16 && lo < 16 && |s| >= 2
    requires DigitValue(s[0]) == Some(hi) && DigitValue(s[1]) == Some(lo)
    requires Decode(s[2..]) == Some(rest)
    ensures Decode(s) == Some([(hi * 16 + lo) as bv8] + rest)
  {
  }

  /** Encoding a decoded string in the case it was written in gives the string back. */
  lemma {:induction false} EncodeDecode(s: string, upper: bool)
    requires AllDigits(s, upper)
    requires Decode(s).Some?
    ensures Encode(Decode(s).value, upper) == s
  {
    if s != [] {
      assert |s| >= 2;
      assert AllDigits(s[2..], upper) by {
        forall i | 0 <= i < |s[2..]|
          ensures if upper then IsUpperDigit(s[2..][i]) else IsLowerDigit(s[2..][i])
        {
          assert s[2..][i] == s[i + 2];
        }
      }
      EncodeDecode(s[2..], upper);
      var hi := DigitValue(s[0]).value;
      var lo := DigitValue(s[1]).value;
      var rest := Decode(s[2..]).value;
      DecodeStep(s, hi, lo, rest);
      var b := (hi * 16 + lo) as bv8;
      NibblesOfByte(hi, lo);
      DigitUnique(s[0], hi, upper);
      DigitUnique(s[1], lo, upper);
      assert ([b] + rest)[1..] == rest;
      assert Encode([b] + rest, upper) == [s[0], s[1]] + s[2..];
    }
  }

  /** The nibbles of a byte built from two nibbles are those nibbles. */
  lemma NibblesOfByte(hi: nat, lo: nat)
    requires hi < 16 && lo < 16
    ensures ((hi * 16 + lo) as bv8) as int / 16 == hi
    ensures ((hi * 16 + lo) as bv8) as int % 16 == lo
  {
    assert ((hi * 16 + lo) as bv8) as int == hi * 16 + lo;
  }

  /** A digit of a fixed case is determined by its value. */
  lemma DigitUnique(c: char, n: nat, upper: bool)
    requires n < 16
    requires DigitValue(c) == Some(n)
    requires if upper then IsUpperDigit(c) else IsLowerDigit(c)
    ensures Digit(n, upper) == c
  {
  }

  /** Different byte strings have different renderings. */
  lemma EncodeInjective(a: seq<bv8>, b: seq<bv8>, upper: bool)
    requires Encode(a, upper) == Encode(b, upper)
    ensures a == b
  {
    DecodeEncode(a, upper);
    DecodeEncode(b, upper);
  }
}
