/**
  Decimal text of a byte count, as `String(format: "%lu", n)` prints the
  `Content-Length` header value, and the reading of it back.
 */
module Decimal {
  import opened Wrappers

  predicate IsDigit(c: char) {
    '0' <= c <= '9'
  }

  predicate IsDigits(s: string) {
    forall j :: 0 <= j < |s| ==> IsDigit(s[j])
  }

  /** `%lu` output: no sign and no leading zero except for zero itself. */
  predicate IsCanonical(s: string) {
    |s| > 0 && IsDigits(s) && (s[0] == '0' ==> |s| == 1)
  }

  function Digit(n: nat): (c: char)
    requires n < 10
    ensures IsDigit(c)
  {
    ('0' as int + n) as char
  }

  /** The decimal text of `n`, most significant digit first. */
  function Encode(n: nat): (s: string)
    ensures IsCanonical(s)
    decreases n
  {
    if n < 10 then [Digit(n)] else Encode(n / 10) + [Digit(n % 10)]
  }

  /** The number a string of digits denotes. */
  function Value(s: string): nat
    requires IsDigits(s)
  {
    if |s| == 0 then 0 else Value(s[..|s| - 1]) * 10 + (s[|s| - 1] as int - '0' as int)
  }

  /** Reads a header value as a count; None unless it is a non-empty run of digits. */
  function Parse(s: string): (r: Option<nat>)
    ensures r.Some? <==> |s| > 0 && IsDigits(s)
  {
    if |s| > 0 && IsDigits(s) then Some(Value(s)) else None
  }

  /** Reading the printed count gives the count back. */
  lemma {:induction false} ParseEncode(n: nat)
    ensures Parse(Encode(n)) == Some(n)
    decreases n
  {
    var s := Encode(n);
    if n < 10 {
      assert s[..0] == [];
    } else {
      ParseEncode(n / 10);
      assert s[..|s| - 1] == Encode(n / 10);
      assert s[|s| - 1] as int - '0' as int == n % 10;
      assert Value(s) == (n / 10) * 10 + n % 10;
    }
  }

  /** Any `%lu`-shaped text is the printing of the count it denotes. */
  lemma {:induction false} EncodeValue(s: string)
    requires IsCanonical(s)
    ensures Encode(Value(s)) == s
    decreases |s|
  {
    if |s| > 1 {
      var init := s[..|s| - 1];
      assert init[0] == s[0];
      assert IsCanonical(init);
      EncodeValue(init);
      var v := Value(s);
      var d := s[|s| - 1] as int - '0' as int;
      assert Value(init) > 0 by { PositiveValue(init); }
      assert v / 10 == Value(init) && v % 10 == d;
      assert s == init + [s[|s| - 1]];
    }
  }

  /** A canonical text of two or more digits denotes a positive number. */
  lemma {:induction false} PositiveValue(s: string)
    requires IsCanonical(s) && s[0] != '0'
    ensures Value(s) > 0
    decreases |s|
  {
    if |s| > 1 {
      var init := s[..|s| - 1];
      assert init[0] == s[0];
      PositiveValue(init);
    }
  }
}
