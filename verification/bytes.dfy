/** Octets and the ASCII text that the request builder writes into them. */
module Bytes {

  /** One octet of an `NSData` buffer. */
  newtype uint8 = x: int | 0 <= x < 0x100

  /** Carriage return, line feed: the line break of every multipart header. */
  const CRLF: seq<uint8> := [0x0D, 0x0A]

  /** Every octet is a 7-bit ASCII code. */
  predicate IsAscii(bs: seq<uint8>) {
    forall i :: 0 <= i < |bs| ==> bs[i] < 0x80
  }

  /** Every character of the text is a 7-bit ASCII character. */
  predicate IsAsciiText(s: string) {
    forall i :: 0 <= i < |s| ==> s[i] as int < 0x80
  }

  /** The octets of ASCII text: one octet per character, the character's code. */
  function Ascii(s: string): (bs: seq<uint8>)
    requires IsAsciiText(s)
    ensures |bs| == |s|
    ensures forall i :: 0 <= i < |s| ==> bs[i] as int == s[i] as int
    ensures IsAscii(bs)
  {
    seq(|s|, i requires 0 <= i < |s| => s[i] as int as uint8)
  }
}
