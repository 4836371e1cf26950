/** Decimal numerals for the numeric identifiers of a version: no sign, at
    least one digit, and no leading zero unless the numeral is "0"
    (item 2 of Semantic Versioning 2.0.0). */
module Decimal {
  import opened Wrappers

  predicate IsDigit(c: char) {
    '0' <= c <= '9'
  }

  predicate AllDigits(s: string) {
    forall i :: 0 <= i < |s| ==> IsDigit(s[i])
  }

  /** A numeric identifier as Semantic Versioning allows it. */
  predicate IsNumeral(s: string) {
    |s| > 0 && AllDigits(s) && (s[0] == '0' ==> |s| == 1)
  }

  function DigitValue(c: char): (d: nat)
    requires IsDigit(c)
    ensures d < 10
  {
    c as int - '0' as int
  }

  function DigitChar(d: nat): (c: char)
    requires d < 10
    ensures IsDigit(c) && DigitValue(c) == d
  {
    ('0' as int + d) as char
  }

  /** The number a string of digits denotes, most significant digit first. */
  function ValueOf(s: string): nat
    requires AllDigits(s)
  {
    if |s| == 0 then 0
    else ValueOf(s[..|s| - 1]) * 10 + DigitValue(s[|s| - 1])
  }

  /** The canonical decimal numeral of `n`, as JavaScript's `String(n)` writes
      a non-negative integer. */
  function Show(n: nat): (s: string)
    ensures IsNumeral(s)
    decreases n
  {
    if n < 10 then [DigitChar(n)]
    else Show(n / 10) + [DigitChar(n % 10)]
  }

  /** Reads a numeric identifier; None for anything that is not one. */
  function Parse(s: string): (r: Option<nat>)
    ensures r.Some? <==> IsNumeral(s)
  {
    if IsNumeral(s) then Some(ValueOf(s)) else None
  }

  /** Reading back a shown number gives the number. */
  lemma {:induction false} ParseShow(n: nat)
    ensures Parse(Show(n)) == Some(n)
    decreases n
  {
    var s := Show(n);
    if n < 10 {
      assert s[..|s| - 1] == [];
    } else {
      ParseShow(n / 10);
      assert s[..|s| - 1] == Show(n / 10);
      assert ValueOf(Show(n / 10)) == n / 10;
      assert DigitValue(s[|s| - 1]) == n % 10;
    }
    assert ValueOf(s) == n;
  }

  /** A numeral whose first digit is not zero denotes a positive number. */
  lemma {:induction false} ValueOfPositive(s: string)
    requires |s| > 0 && AllDigits(s) && s[0] != '0'
    ensures ValueOf(s) > 0
  {
    if |s| > 1 {
      ValueOfPositive(s[..|s| - 1]);
    }
  }

  /** Every numeral is the shown form of the number it denotes: there is
      exactly one way to write each number. */
  lemma {:induction false} ShowParse(s: string)
    requires IsNumeral(s)
    ensures Show(ValueOf(s)) == s
  {
    if |s| > 1 {
      var p := s[..|s| - 1];
      ValueOfPositive(p);
      ShowParse(p);
      var n := ValueOf(s);
      assert n / 10 == ValueOf(p) && n % 10 == DigitValue(s[|s| - 1]);
      assert DigitChar(n % 10) == s[|s| - 1];
      assert p + [s[|s| - 1]] == s;
    }
  }
}
