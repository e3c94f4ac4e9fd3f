/**
  Lowercase hexadecimal text of a byte buffer, as `hexStringWithData`
  produces it with one `%02x` per byte.
 */
module Hex {
  import opened Bytes
  import opened Wrappers
  import Decimal

  /** A character `%x` can print: 0-9 or a lowercase a-f. */
  predicate IsLowerHexDigit(c: char) {
    '0' <= c <= '9' || 'a' <= c <= 'f'
  }

  predicate IsLowerHex(s: string) {
    forall j :: 0 <= j < |s| ==> IsLowerHexDigit(s[j])
  }

  /** The lowercase digit of a nibble: a decimal digit below ten, a-f above. */
  function Digit(n: nat): (c: char)
    requires n < 16
    ensures IsLowerHexDigit(c)
  {
    if n < 10 then Decimal.Digit(n) else ('a' as int + (n - 10)) as char
  }

  /** The nibble a lowercase digit stands for. */
  function DigitValue(c: char): (n: nat)
    requires IsLowerHexDigit(c)
    ensures n < 16
    ensures Digit(n) == c
  {
    if c <= '9' then c as int - '0' as int else c as int - 'a' as int + 10
  }

  lemma DigitValueOfDigit(n: nat)
    requires n < 16
    ensures DigitValue(Digit(n)) == n
  {
  }

  /** `%02x` of one byte: two digits, high nibble first. */
  function ByteHex(b: uint8): (s: string)
    ensures |s| == 2
    ensures s[0] == Digit(b as int / 16) && s[1] == Digit(b as int % 16)
  {
    [Digit(b as int / 16), Digit(b as int % 16)]
  }

  /** The two characters of `%02x` stand for the byte's value, high nibble first. */
  lemma ByteHexValue(b: uint8)
    ensures DigitValue(ByteHex(b)[0]) * 16 + DigitValue(ByteHex(b)[1]) == b as int
  {
    DigitValueOfDigit(b as int / 16);
    DigitValueOfDigit(b as int % 16);
  }

  /** The hex text of `data`, two characters per byte. */
  function Encode(data: seq<uint8>): (s: string)
    ensures |s| == 2 * |data|
    ensures IsLowerHex(s)
    ensures forall i :: 0 <= i < |data| ==>
              s[2 * i] == Digit(data[i] as int / 16) && s[2 * i + 1] == Digit(data[i] as int % 16)
  {
    if |data| == 0 then ""
    else
      var rest := Encode(data[1..]);
      var s := ByteHex(data[0]) + rest;
      assert forall i :: 0 <= i < |data| ==>
          s[2 * i] == Digit(data[i] as int / 16) && s[2 * i + 1] == Digit(data[i] as int % 16) by {
        forall i | 1 <= i < |data|
          ensures s[2 * i] == Digit(data[i] as int / 16) && s[2 * i + 1] == Digit(data[i] as int % 16)
        {
          var k := i - 1;
          assert data[i] == data[1..][k];
          assert s[2 * i] == rest[2 * k] && s[2 * i + 1] == rest[2 * k + 1];
        }
      }
      s
  }

  /** Reads hex text back into bytes; None for an odd length or a non-digit. */
  function Decode(s: string): (r: Option<seq<uint8>>)
    ensures r.Some? ==> 2 * |r.value| == |s|
  {
    if |s| == 0 then Some([])
    else if |s| == 1 || !IsLowerHexDigit(s[0]) || !IsLowerHexDigit(s[1]) then None
    else
      match Decode(s[2..])
      case None => None
      case Some(rest) => Some([(DigitValue(s[0]) * 16 + DigitValue(s[1])) as uint8] + rest)
  }

  /** Decoding the encoding gives the bytes back. */
  lemma {:induction false} DecodeEncode(data: seq<uint8>)
    ensures Decode(Encode(data)) == Some(data)
  {
    if |data| > 0 {
      var s := Encode(data);
      var b := data[0];
      DigitValueOfDigit(b as int / 16);
      DigitValueOfDigit(b as int % 16);
      assert s[2..] == Encode(data[1..]);
      DecodeEncode(data[1..]);
      assert data == [b] + data[1..];
    }
  }

  /** Any lowercase hex text is the encoding of what it decodes to. */
  lemma {:induction false} EncodeDecode(s: string)
    requires Decode(s).Some?
    ensures Encode(Decode(s).value) == s
  {
    if |s| > 0 {
      var rest := Decode(s[2..]).value;
      var hi, lo := DigitValue(s[0]), DigitValue(s[1]);
      var b := (hi * 16 + lo) as uint8;
      assert b as int / 16 == hi && b as int % 16 == lo;
      var d := [b] + rest;
      assert Decode(s).value == d;
      assert d[0] == b && d[1..] == rest;
      assert ByteHex(b) == s[..2];
      EncodeDecode(s[2..]);
      calc {
        Encode(d);
        ByteHex(b) + Encode(rest);
        s[..2] + s[2..];
      }
      assert s == s[..2] + s[2..];
    }
  }

  /** Encoding is injective: distinct digests print differently. */
  lemma EncodeInjective(a: seq<uint8>, b: seq<uint8>)
    requires Encode(a) == Encode(b)
    ensures a == b
  {
    DecodeEncode(a);
    DecodeEncode(b);
  }

  /** Appending one byte appends its two digits. */
  lemma {:induction false} EncodeSnoc(data: seq<uint8>, b: uint8)
    ensures Encode(data + [b]) == Encode(data) + ByteHex(b)
  {
    if |data| > 0 {
      assert (data + [b])[1..] == data[1..] + [b];
      EncodeSnoc(data[1..], b);
    }
  }

  /**
    The loop of `hexStringWithData`: appends `%02x` of each of the first
    `ofLength` bytes of the buffer.
   */
  method HexStringWithData(data: seq<uint8>, ofLength: nat) returns (s: string)
    requires ofLength <= |data|
    ensures |s| == 2 * ofLength
    ensures IsLowerHex(s)
    ensures forall i :: 0 <= i < ofLength ==>
              s[2 * i] == Digit(data[i] as int / 16) && s[2 * i + 1] == Digit(data[i] as int % 16)
    ensures Decode(s) == Some(data[..ofLength])
  {
    var tmp := "";
    for i := 0 to ofLength
      invariant tmp == Encode(data[..i])
    {
      EncodeSnoc(data[..i], data[i]);
      assert data[..i + 1] == data[..i] + [data[i]];
      tmp := tmp + ByteHex(data[i]);
    }
    s := tmp;
    DecodeEncode(data[..ofLength]);
  }
}
