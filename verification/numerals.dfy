/** Digit values, decimal rendering of integers (Python's str(int)) and
    positional values of digit strings in a radix (as JavaScript's parseInt reads them). */
module Numerals {
  import opened Wrappers

  /** The value a character has as a digit in radices up to 36; 36 for any
      other character, which is therefore a digit in no radix. */
  function CharValue(c: char): nat {
    if '0' <= c <= '9' then c as int - '0' as int
    else if 'a' <= c <= 'z' then c as int - 'a' as int + 10
    else if 'A' <= c <= 'Z' then c as int - 'A' as int + 10
    else 36
  }

  predicate IsDigitIn(c: char, radix: nat) {
    CharValue(c) < radix
  }

  /** Positional value of a digit string, most significant digit first. */
  function ValueIn(digits: string, radix: nat): nat {
    if |digits| == 0 then 0
    else ValueIn(digits[..|digits| - 1], radix) * radix + CharValue(digits[|digits| - 1])
  }

  /** Length of the longest prefix of s made of digits of the radix. */
  function DigitPrefixLength(s: string, radix: nat): (n: nat)
    ensures n <= |s|
    ensures forall i :: 0 <= i < n ==> IsDigitIn(s[i], radix)
    ensures n < |s| ==> !IsDigitIn(s[n], radix)
  {
    if |s| == 0 || !IsDigitIn(s[0], radix) then 0
    else 1 + DigitPrefixLength(s[1..], radix)
  }

  function DigitChar(d: nat): (c: char)
    requires d < 10
    ensures '0' <= c <= '9'
    ensures CharValue(c) == d
  {
    ('0' as int + d) as char
  }

  /** Decimal digits of n, without leading zeros. */
  function DecimalDigits(n: nat): (s: string)
    ensures |s| >= 1
    ensures forall i :: 0 <= i < |s| ==> '0' <= s[i] <= '9'
    ensures |s| > 1 ==> s[0] != '0'
    ensures ValueIn(s, 10) == n
  {
    if n < 10 then [DigitChar(n)]
    else
      var prefix := DecimalDigits(n / 10);
      var s := prefix + [DigitChar(n % 10)];
      assert s[..|s| - 1] == prefix;
      s
  }

  /** Python's str() of an int: a minus sign for negatives, then the decimal digits. */
  function IntToString(n: int): (s: string)
    ensures |s| >= 1
    ensures s[0] == '-' <==> n < 0
    ensures n < 0 ==> |s| >= 2 && s[1..] == DecimalDigits(-n)
    ensures n >= 0 ==> s == DecimalDigits(n)
  {
    if n < 0 then "-" + DecimalDigits(-n) else DecimalDigits(n)
  }

  /** A digit-only string is its own longest digit prefix. */
  lemma {:induction false} DigitsArePrefix(digits: string, rest: string, radix: nat)
    requires forall i :: 0 <= i < |digits| ==> IsDigitIn(digits[i], radix)
    requires |rest| > 0 ==> !IsDigitIn(rest[0], radix)
    ensures DigitPrefixLength(digits + rest, radix) == |digits|
    decreases |digits|
  {
    if |digits| > 0 {
      assert (digits + rest)[1..] == digits[1..] + rest;
      DigitsArePrefix(digits[1..], rest, radix);
    } else {
      assert digits + rest == rest;
    }
  }

  /** Reads integer text as Python's int() reads a plain literal: an optional
      minus sign followed by one or more decimal digits and nothing else. */
  function ParseDecimalInt(s: string): Option<int> {
    var negative := |s| > 0 && s[0] == '-';
    var digits := if negative then s[1..] else s;
    if |digits| == 0 || exists i :: 0 <= i < |digits| && !('0' <= digits[i] <= '9') then None
    else
      var magnitude: int := ValueIn(digits, 10);
      Some(if negative then -magnitude else magnitude)
  }

  /** Rendering an integer loses nothing: the text reads back as the integer. */
  lemma IntToStringRoundTrip(n: int)
    ensures ParseDecimalInt(IntToString(n)) == Some(n)
  {
  }
}
