/**
 * Canonical base-10 text of a non-negative integer, as
 * `Int32.ToString(CultureInfo.InvariantCulture)` renders the values that
 * `Random.Next()` returns: decimal digits only, no sign, no leading zero.
 * The parser is the inverse used to prove that rendering is injective.
 */
module Decimal {

  predicate IsDigit(c: char) {
    '0' <= c <= '9'
  }

  predicate AllDigits(s: string) {
    forall i | 0 <= i < |s| :: IsDigit(s[i])
  }

  /** Non-empty, digits only, and no leading zero unless the text is "0". */
  predicate IsCanonical(s: string) {
    |s| >= 1 && AllDigits(s) && (s[0] == '0' ==> |s| == 1)
  }

  function DigitChar(d: nat): (c: char)
    requires d < 10
    ensures IsDigit(c)
  {
    ('0' as int + d) as char
  }

  function DigitValue(c: char): (d: nat)
    requires IsDigit(c)
    ensures d < 10
    ensures DigitChar(d) == c
  {
    c as int - '0' as int
  }

  /** The text of `n`: the text of `n / 10` followed by the last digit. */
  function NatToString(n: nat): (s: string)
    ensures IsCanonical(s)
    ensures s[0] == '0' <==> n == 0
    decreases n
  {
    if n < 10 then [DigitChar(n)]
    else NatToString(n / 10) + [DigitChar(n % 10)]
  }

  /** Reads a string of digits as a number, most significant digit first. */
  function ParseDecimal(s: string): nat
    requires AllDigits(s)
  {
    if s == [] then 0
    else 10 * ParseDecimal(s[..|s| - 1]) + DigitValue(s[|s| - 1])
  }

  lemma {:induction false} ParseOfNatToString(n: nat)
    ensures ParseDecimal(NatToString(n)) == n
    decreases n
  {
    var s := NatToString(n);
    if n < 10 {
      assert s[..0] == [];
    } else {
      ParseOfNatToString(n / 10);
      assert s[..|s| - 1] == NatToString(n / 10);
    }
  }

  lemma {:induction false} NatToStringOfParse(s: string)
    requires IsCanonical(s)
    ensures NatToString(ParseDecimal(s)) == s
    decreases |s|
  {
    var last := s[|s| - 1];
    var d := DigitValue(last);
    if |s| == 1 {
      assert s[..0] == [];
      assert ParseDecimal(s) == d;
      assert NatToString(d) == [DigitChar(d)] == [last];
    } else {
      var p := s[..|s| - 1];
      assert p[0] == s[0];
      assert IsCanonical(p);
      NatToStringOfParse(p);
      var q := ParseDecimal(p);
      assert q != 0 by {
        assert NatToString(q)[0] == p[0] != '0';
      }
      var n := 10 * q + d;
      assert ParseDecimal(s) == n;
      assert n / 10 == q && n % 10 == d;
      assert NatToString(n) == NatToString(q) + [DigitChar(d)] == p + [last];
      assert p + [last] == s;
    }
  }

  /** Distinct draws give distinct keys. */
  lemma NatToStringInjective(a: nat, b: nat)
    requires NatToString(a) == NatToString(b)
    ensures a == b
  {
    ParseOfNatToString(a);
    ParseOfNatToString(b);
  }
}
