/**
 Decimal numerals over the ASCII digits '0'..'9': Python's `int(digits)` on
 a run of digits and `str(n)` on a non-negative integer.
 */
module Decimal {
  import opened Text

  predicate IsDigit(c: char) { '0' <= c <= '9' }

  predicate IsNonDigit(c: char) { !IsDigit(c) }

  predicate AllDigits(s: string) {
    forall k :: 0 <= k < |s| ==> IsDigit(s[k])
  }

  /** The form `str(n)` produces: at least one digit, no leading zero except in "0". */
  predicate Canonical(s: string) {
    |s| >= 1 && AllDigits(s) && (s[0] == '0' ==> |s| == 1)
  }

  function DigitValue(c: char): (d: nat)
    requires IsDigit(c)
    ensures d < 10
  {
    c as int - '0' as int
  }

  function DigitChar(d: nat): (c: char)
    requires d < 10
    ensures IsDigit(c) && DigitValue(c) == d
  {
    ('0' as int + d) as char
  }

  /** `int(ds)` for a string of ASCII digits (leading zeros allowed). */
  function ParseDecimal(ds: string): nat
    requires AllDigits(ds)
  {
    if |ds| == 0 then 0
    else 10 * ParseDecimal(ds[..|ds| - 1]) + DigitValue(ds[|ds| - 1])
  }

  /** `str(n)` for a non-negative integer. */
  function NatToString(n: nat): (s: string)
    ensures Canonical(s)
  {
    if n < 10 then [DigitChar(n)]
    else NatToString(n / 10) + [DigitChar(n % 10)]
  }

  /** Length of the run of digits that `s` starts with (the greedy `\d+`
      stops at the first non-digit). */
  function DigitRun(s: string): (n: nat)
    ensures n <= |s|
    ensures AllDigits(s[..n])
    ensures n == |s| || !IsDigit(s[n])
  {
    FirstWhere(s, IsNonDigit)
  }

  /** Reading back what `str` wrote gives the same number. */
  lemma {:induction false} ParseNatToString(n: nat)
    ensures ParseDecimal(NatToString(n)) == n
  {
    if n >= 10 {
      ParseNatToString(n / 10);
      var s := NatToString(n);
      assert s[..|s| - 1] == NatToString(n / 10);
    }
  }

  lemma {:induction false} ParsePositive(ds: string)
    requires |ds| >= 1 && AllDigits(ds) && ds[0] != '0'
    ensures ParseDecimal(ds) >= 1
    decreases |ds|
  {
    if |ds| > 1 {
      ParsePositive(ds[..|ds| - 1]);
    }
  }

  /** Writing back what was read from a canonical numeral gives the same text. */
  lemma {:induction false} NatToStringParse(ds: string)
    requires Canonical(ds)
    ensures NatToString(ParseDecimal(ds)) == ds
    decreases |ds|
  {
    if |ds| > 1 {
      var init := ds[..|ds| - 1];
      ParsePositive(init);
      NatToStringParse(init);
      assert ds == init + [ds[|ds| - 1]];
    }
  }

  /** Two canonical numerals with the same value are the same text. */
  lemma CanonicalUnique(a: string, b: string)
    requires Canonical(a) && Canonical(b)
    requires ParseDecimal(a) == ParseDecimal(b)
    ensures a == b
  {
    NatToStringParse(a);
    NatToStringParse(b);
  }
}
