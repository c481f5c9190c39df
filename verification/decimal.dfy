/**
 * Decimal rendering of integers, as Java's string concatenation prints an
 * `int` or `long`, and the parser that reads such text back. Links carry
 * identifiers and page numbers in this form.
 */
module Decimal {
  import opened Wrappers

  predicate IsDigit(c: char) {
    '0' <= c <= '9'
  }

  predicate AllDigits(s: string) {
    forall i :: 0 <= i < |s| ==> IsDigit(s[i])
  }

  function DigitChar(d: nat): (c: char)
    requires d < 10
    ensures IsDigit(c)
  {
    ('0' as int + d) as char
  }

  function DigitValue(c: char): nat
    requires IsDigit(c)
  {
    c as int - '0' as int
  }

  /** Shortest decimal form of `n`, most significant digit first. */
  function NatToString(n: nat): (s: string)
    ensures 1 <= |s|
    ensures AllDigits(s)
    decreases n
  {
    if n < 10 then [DigitChar(n)] else NatToString(n / 10) + [DigitChar(n % 10)]
  }

  /** Java's rendering of a signed integer: a minus sign for negatives. */
  function IntToString(i: int): (s: string)
    ensures 1 <= |s|
    ensures (s[0] == '-') <==> i < 0
  {
    if i < 0 then "-" + NatToString(-i) else NatToString(i)
  }

  function DigitsValue(s: string): nat
    requires AllDigits(s)
    decreases |s|
  {
    if |s| == 0 then 0 else DigitsValue(s[..|s| - 1]) * 10 + DigitValue(s[|s| - 1])
  }

  /** A non-empty run of digits, read as a number; anything else is rejected. */
  function ParseNat(s: string): Option<nat> {
    if |s| == 0 || !AllDigits(s) then None else Some(DigitsValue(s))
  }

  /** An optional minus sign followed by digits. */
  function ParseInt(s: string): Option<int> {
    if |s| > 0 && s[0] == '-' then
      match ParseNat(s[1..])
      case Some(n) => Some(-(n as int))
      case None => None
    else
      match ParseNat(s)
      case Some(n) => Some(n)
      case None => None
  }

  lemma {:induction false} ParseNatRoundTrip(n: nat)
    ensures ParseNat(NatToString(n)) == Some(n)
    decreases n
  {
    var s := NatToString(n);
    if n < 10 {
      assert s[..|s| - 1] == [];
      assert DigitValue(s[0]) == n;
      assert DigitsValue(s) == DigitsValue(s[..|s| - 1]) * 10 + DigitValue(s[0]);
    } else {
      ParseNatRoundTrip(n / 10);
      assert s[..|s| - 1] == NatToString(n / 10);
    }
  }

  lemma ParseIntRoundTrip(i: int)
    ensures ParseInt(IntToString(i)) == Some(i)
  {
    if i < 0 {
      assert IntToString(i)[1..] == NatToString(-i);
      ParseNatRoundTrip(-i);
    } else {
      ParseNatRoundTrip(i);
    }
  }

  /** Distinct numbers print differently. */
  lemma NatToStringInjective(m: nat, n: nat)
    requires m != n
    ensures NatToString(m) != NatToString(n)
  {
    ParseNatRoundTrip(m);
    ParseNatRoundTrip(n);
  }
}
