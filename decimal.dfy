/** Decimal rendering of naturals, as an f-string formats an `int`. */
module Decimal {

  predicate IsDigit(c: char) {
    '0' <= c <= '9'
  }

  function DigitChar(d: nat): (c: char)
    requires d < 10
    ensures IsDigit(c)
  {
    (48 + d) as char
  }

  function DigitValue(c: char): (d: nat)
    requires IsDigit(c)
    ensures d < 10 && DigitChar(d) == c
  {
    (c as int - 48) as nat
  }

  /** `str(n)`: the shortest digit string for n, most significant digit first. */
  function DecimalString(n: nat): (s: string)
    ensures |s| > 0
    ensures forall k :: 0 <= k < |s| ==> IsDigit(s[k])
    ensures s[0] == '0' ==> n == 0
  {
    if n < 10 then [DigitChar(n)] else DecimalString(n / 10) + [DigitChar(n % 10)]
  }

  /** The value of a digit string, read most significant digit first. */
  function ParseDecimal(s: string): nat
    requires forall k :: 0 <= k < |s| ==> IsDigit(s[k])
  {
    if s == [] then 0 else 10 * ParseDecimal(s[..|s| - 1]) + DigitValue(s[|s| - 1])
  }

  /** Formatting then reading a number gives the number back. */
  lemma {:induction false} ParseDecimalString(n: nat)
    ensures ParseDecimal(DecimalString(n)) == n
  {
    var s := DecimalString(n);
    if n >= 10 {
      assert s[..|s| - 1] == DecimalString(n / 10);
      ParseDecimalString(n / 10);
    }
  }

  /** Length of the run of digits at the start of s. */
  function DigitRun(s: string): (k: nat)
    ensures k <= |s|
    ensures forall j :: 0 <= j < k ==> IsDigit(s[j])
    ensures k < |s| ==> !IsDigit(s[k])
  {
    if s == [] || !IsDigit(s[0]) then 0 else 1 + DigitRun(s[1..])
  }

  /** A digit string followed by a non-digit is read up to that non-digit. */
  lemma DigitRunStops(d: string, rest: string)
    requires forall k :: 0 <= k < |d| ==> IsDigit(d[k])
    requires rest != [] && !IsDigit(rest[0])
    ensures DigitRun(d + rest) == |d|
  {
    var s := d + rest;
    assert !IsDigit(s[|d|]);
    assert forall j :: 0 <= j < |d| ==> IsDigit(s[j]);
  }
}
