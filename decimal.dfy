/** Decimal text of integers, as Java's string concatenation writes an
    `Integer` or a `long` (`" LIMIT " + limit`, `"...id=" + id`), and a
    parser that reads it back. */
module Decimal {
  import opened Model

  predicate IsDigit(c: char) {
    '0' <= c <= '9'
  }

  predicate IsDigits(s: string) {
    forall i :: 0 <= i < |s| ==> IsDigit(s[i])
  }

  function DigitChar(d: nat): (c: char)
    requires d < 10
    ensures IsDigit(c) && DigitValue(c) == d
  {
    ('0' as int + d) as char
  }

  function DigitValue(c: char): nat
    requires IsDigit(c)
  {
    c as int - '0' as int
  }

  /** Integer.toString / Long.toString of a non-negative value: the shortest
      decimal numeral, so no leading zero except for 0 itself. */
  function NatToString(n: nat): (s: string)
    ensures |s| > 0 && IsDigits(s)
    ensures |s| > 1 ==> s[0] != '0'
    decreases n
  {
    if n < 10 then [DigitChar(n)] else NatToString(n / 10) + [DigitChar(n % 10)]
  }

  /** Integer.toString / Long.toString of any value: a minus sign before the
      numeral of the magnitude when negative. */
  function IntToString(i: int): (s: string)
    ensures |s| > 0
    ensures (s[0] == '-') <==> i < 0
  {
    if i < 0 then "-" + NatToString(-i) else NatToString(i)
  }

  /** The value of a string of digits, most significant first. */
  function DigitsValue(s: string): nat
    requires IsDigits(s)
  {
    if s == [] then 0 else DigitsValue(s[..|s| - 1]) * 10 + DigitValue(s[|s| - 1])
  }

  /** Reads a non-empty run of digits; anything else is rejected. */
  function ParseNat(s: string): Option<nat> {
    if s != [] && IsDigits(s) then Some(DigitsValue(s)) else None
  }

  /** Reads an optional minus sign followed by a numeral. */
  function ParseInt(s: string): Option<int> {
    if s != [] && s[0] == '-' then
      match ParseNat(s[1..])
      case Some(n) => Some(0 - n as int)
      case None => None
    else
      match ParseNat(s)
      case Some(n) => Some(n)
      case None => None
  }

  /** The numeral NatToString writes is read back to the same value. */
  lemma {:induction false} ParseNatToString(n: nat)
    ensures ParseNat(NatToString(n)) == Some(n)
    decreases n
  {
    var s := NatToString(n);
    if n >= 10 {
      var prefix := NatToString(n / 10);
      ParseNatToString(n / 10);
      assert s == prefix + [DigitChar(n % 10)];
      assert s[..|s| - 1] == prefix;
      assert DigitValue(s[|s| - 1]) == n % 10;
      assert DigitsValue(prefix) == n / 10;
      assert DigitsValue(s) == (n / 10) * 10 + n % 10;
    } else {
      assert s == [DigitChar(n)];
      assert s[..0] == [];
      assert DigitsValue(s) == DigitsValue(s[..0]) * 10 + DigitValue(s[0]);
    }
  }

  /** The text IntToString writes is read back to the same value, so a
      message ending in it names exactly that value. */
  lemma ParseIntToString(i: int)
    ensures ParseInt(IntToString(i)) == Some(i)
  {
    if i < 0 {
      ParseNatToString(-i);
      assert IntToString(i)[1..] == NatToString(-i);
    } else {
      ParseNatToString(i);
    }
  }

  /** Different values are written as different texts. */
  lemma IntToStringInjective(i: int, j: int)
    requires IntToString(i) == IntToString(j)
    ensures i == j
  {
    ParseIntToString(i);
    ParseIntToString(j);
  }
}
