/**
 Decimal rendering of integers, as Go's `fmt` `%d` verb writes them: an optional
 minus sign followed by the digits of the magnitude, without leading zeros.
 `Parse` is its inverse and `ParseShow` proves the round trip.
 */
module Decimal {
  import opened Wrappers

  predicate IsDigit(c: char) {
    '0' <= c <= '9'
  }

  function DigitChar(d: int): (c: char)
    requires 0 <= d < 10
    ensures IsDigit(c)
  {
    (48 + d) as char
  }

  function DigitValue(c: char): (d: int)
    requires IsDigit(c)
    ensures 0 <= d < 10 && DigitChar(d) == c
  {
    c as int - 48
  }

  /** The digits of a natural number, most significant first. */
  function ShowNat(n: nat): (s: string)
    ensures |s| > 0
    ensures forall i :: 0 <= i < |s| ==> IsDigit(s[i])
    ensures s[0] == '0' <==> n == 0
    ensures |s| == 1 <==> n < 10
    decreases n
  {
    if n < 10 then [DigitChar(n)] else ShowNat(n / 10) + [DigitChar(n % 10)]
  }

  /** `%d`: a minus sign for negative numbers, then the digits of the magnitude, with no leading zero. */
  function Show(n: int): (s: string)
    ensures |s| > 0
    ensures forall i :: 0 <= i < |s| ==> IsDigit(s[i]) || (i == 0 && s[i] == '-')
    ensures s[0] == '-' <==> n < 0
    ensures var digits := if n < 0 then s[1..] else s; |digits| > 0 && (digits[0] == '0' <==> n == 0)
  {
    if n < 0 then "-" + ShowNat(-n) else ShowNat(n)
  }

  /** The value of a non-empty string of digits; None if it is empty or holds anything else. */
  function ParseNat(s: string): Option<nat>
    decreases |s|
  {
    if |s| == 0 || !IsDigit(s[|s| - 1]) then None
    else if |s| == 1 then Some(DigitValue(s[0]))
    else
      match ParseNat(s[..|s| - 1])
      case None => None
      case Some(v) => Some(v * 10 + DigitValue(s[|s| - 1]))
  }

  /** The value of an optionally signed decimal numeral. */
  function Parse(s: string): Option<int> {
    if |s| > 0 && s[0] == '-' then
      match ParseNat(s[1..])
      case None => None
      case Some(v) => Some(-(v as int))
    else
      match ParseNat(s)
      case None => None
      case Some(v) => Some(v as int)
  }

  /** Reading back the digits of a natural number gives the number. */
  lemma {:induction false} ParseShowNat(n: nat)
    ensures ParseNat(ShowNat(n)) == Some(n)
    decreases n
  {
    if n >= 10 {
      var s := ShowNat(n);
      ParseShowNat(n / 10);
      assert s[..|s| - 1] == ShowNat(n / 10);
      assert DigitValue(s[|s| - 1]) == n % 10;
    }
  }

  /** Reading back a rendered integer gives the integer. */
  lemma ParseShow(n: int)
    ensures Parse(Show(n)) == Some(n)
  {
    if n < 0 {
      ParseShowNat(-n);
      assert Show(n)[1..] == ShowNat(-n);
    } else {
      ParseShowNat(n);
    }
  }
}
