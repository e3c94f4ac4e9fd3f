/**
  Request signing, `String.sha1WithKey`: HMAC-SHA1 of the message keyed by
  the secret key, printed in lowercase hex. The HMAC itself (CommonCrypto
  `CCHmac`) is not modelled; it is a parameter of every member here.
 */
module Signing {
  import opened Bytes
  import opened Wrappers
  import Hex

  /** `CC_SHA1_DIGEST_LENGTH`: the octets `CCHmac` writes for SHA-1. */
  const DigestLength: nat := 20

  /** What `CCHmac` leaves in the result buffer: exactly one SHA-1 digest. */
  type Digest = d: seq<uint8> | |d| == DigestLength
    witness [0, 0, 0, 0, 0, 0, 0, 0, 0, 0, 0, 0, 0, 0, 0, 0, 0, 0, 0, 0]

  /** HMAC-SHA1 as a function of the key octets and the message octets. */
  type Hmac = (seq<uint8>, seq<uint8>) -> Digest

  /**
    The signature of `message` under `secretKey`. Both are converted with
    `cStringUsingEncoding(NSASCIIStringEncoding)!`, which traps on text that
    is not ASCII, hence the preconditions; on ASCII text those octets are
    the characters' own codes.
   */
  function Sign(hmac: Hmac, secretKey: string, message: seq<uint8>): (sig: string)
    requires IsAsciiText(secretKey)
    requires IsAscii(message)
    ensures |sig| == 2 * DigestLength
    ensures Hex.IsLowerHex(sig)
    ensures IsAsciiText(sig)
    ensures Hex.Decode(sig) == Some(hmac(Ascii(secretKey), message))
  {
    var digest := hmac(Ascii(secretKey), message);
    Hex.DecodeEncode(digest);
    HexIsAscii(Hex.Encode(digest));
    Hex.Encode(digest)
  }

  /** Two messages carry the same signature exactly when their digests agree. */
  lemma SignatureDeterminesDigest(hmac: Hmac, secretKey: string, m1: seq<uint8>, m2: seq<uint8>)
    requires IsAsciiText(secretKey) && IsAscii(m1) && IsAscii(m2)
    ensures Sign(hmac, secretKey, m1) == Sign(hmac, secretKey, m2)
            <==> hmac(Ascii(secretKey), m1) == hmac(Ascii(secretKey), m2)
  {
    var s1, s2 := Sign(hmac, secretKey, m1), Sign(hmac, secretKey, m2);
    if s1 == s2 {
      assert Hex.Decode(s1) == Hex.Decode(s2);
    }
  }

  /** Lowercase hex text is ASCII, so the signature can be written into the body as is. */
  lemma HexIsAscii(s: string)
    requires Hex.IsLowerHex(s)
    ensures IsAsciiText(s)
  {
    assert forall j :: 0 <= j < |s| ==> Hex.IsLowerHexDigit(s[j]);
  }
}
