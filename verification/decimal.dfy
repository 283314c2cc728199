/** Order ids travel through the dashboard as text: the page prints each id
    into a hidden form field, and the posted text is compared with the
    integer `id` column. */
module Decimal {

  import opened Wrappers

  predicate IsDigit(c: char) {
    '0' <= c <= '9'
  }

  predicate AllDigits(s: string) {
    forall i :: 0 <= i < |s| ==> IsDigit(s[i])
  }

  function DigitChar(d: nat): (c: char)
    requires d < 10
    ensures IsDigit(c)
  {
    (('0' as int) + d) as char
  }

  function DigitValue(c: char): (d: nat)
    requires IsDigit(c)
    ensures d < 10
  {
    (c as int) - ('0' as int)
  }

  /** The decimal text a template prints for an id. */
  function Show(n: nat): (s: string)
    ensures |s| >= 1 && AllDigits(s)
  {
    if n < 10 then [DigitChar(n)] else Show(n / 10) + [DigitChar(n % 10)]
  }

  /** The number a non-empty digit string denotes. */
  function Value(s: string): nat
    requires |s| >= 1 && AllDigits(s)
  {
    if |s| == 1 then DigitValue(s[0])
    else Value(s[..|s| - 1]) * 10 + DigitValue(s[|s| - 1])
  }

  /** The integer the `id` column compares a posted text with: a non-empty
      run of decimal digits yields the number it denotes, leading zeros
      included; any other text yields none and so matches no row. */
  function Parse(s: string): (r: Option<nat>)
    ensures r.Some? <==> |s| >= 1 && AllDigits(s)
  {
    if |s| >= 1 && AllDigits(s) then Some(Value(s)) else None
  }

  /** The id a dashboard prints is read back as the same id. */
  lemma {:induction false} ParseShow(n: nat)
    ensures Parse(Show(n)) == Some(n)
    decreases n
  {
    if n >= 10 {
      ParseShow(n / 10);
      var s := Show(n);
      assert s[..|s| - 1] == Show(n / 10);
    }
  }

  predicate AllZeros(z: string) {
    forall i :: 0 <= i < |z| ==> z[i] == '0'
  }

  /** A run of zeros denotes zero. */
  lemma {:induction false} ZeroValue(z: string)
    requires |z| >= 1 && AllZeros(z)
    ensures AllDigits(z) && Value(z) == 0
    decreases |z|
  {
    if |z| > 1 {
      ZeroValue(z[..|z| - 1]);
    }
  }

  /** Leading zeros do not change the number a digit string denotes. */
  lemma {:induction false} ValuePadded(z: string, t: string)
    requires AllZeros(z)
    requires |t| >= 1 && AllDigits(t)
    ensures AllDigits(z + t) && Value(z + t) == Value(t)
    decreases |t|
  {
    var s := z + t;
    if |t| == 1 {
      if |z| >= 1 {
        assert s[..|s| - 1] == z;
        ZeroValue(z);
      } else {
        assert s == t;
      }
    } else {
      var init := t[..|t| - 1];
      assert s[..|s| - 1] == z + init;
      ValuePadded(z, init);
      assert s[|s| - 1] == t[|t| - 1];
    }
  }

  /** A hand-written id with leading zeros, such as "007", yields the same id
      as its plain spelling. */
  lemma ParsePadded(z: string, n: nat)
    requires AllZeros(z)
    ensures Parse(z + Show(n)) == Some(n)
  {
    ParseShow(n);
    ValuePadded(z, Show(n));
  }
}
