/**
 * Record ids and their decimal text. A path stores each id as the text PHP
 * produces when it concatenates an integer; the database compares a path
 * segment with the integer id column by reading it as a number.
 */
module Decimal {
  import opened Options

  predicate IsDigit(c: char) {
    '0' <= c <= '9'
  }

  predicate AllDigits(t: string) {
    forall i :: 0 <= i < |t| ==> IsDigit(t[i])
  }

  function DigitChar(d: nat): (c: char)
    requires d < 10
    ensures IsDigit(c) && c as int - '0' as int == d
  {
    ('0' as int + d) as char
  }

  /** The decimal text of `n`, most significant digit first. */
  function NatToString(n: nat): (t: string)
    ensures |t| >= 1 && AllDigits(t)
    ensures (|t| == 1) == (n < 10)
    decreases n
  {
    if n < 10 then [DigitChar(n)] else NatToString(n / 10) + [DigitChar(n % 10)]
  }

  /** The number a string of digits denotes. */
  function DigitsValue(t: string): nat
    requires AllDigits(t)
  {
    if t == [] then 0
    else DigitsValue(t[..|t| - 1]) * 10 + (t[|t| - 1] as int - '0' as int)
  }

  /** A path segment read as an id: the number it spells, or None when it is not a run of digits. */
  function ParseId(t: string): Option<nat> {
    if t != [] && AllDigits(t) then Some(DigitsValue(t)) else None
  }

  /** Reading back the text of an id gives the id. */
  lemma {:induction false} ParseNatToString(n: nat)
    ensures ParseId(NatToString(n)) == Some(n)
  {
    if n >= 10 {
      var prefix := NatToString(n / 10);
      var t := NatToString(n);
      assert t == prefix + [DigitChar(n % 10)];
      assert t[..|t| - 1] == prefix;
      ParseNatToString(n / 10);
      assert DigitsValue(t) == DigitsValue(prefix) * 10 + n % 10;
    } else {
      assert NatToString(n)[..0] == [];
    }
  }

  /** Different ids have different texts. */
  lemma NatToStringInjective(a: nat, b: nat)
    requires NatToString(a) == NatToString(b)
    ensures a == b
  {
    ParseNatToString(a);
    ParseNatToString(b);
  }
}
