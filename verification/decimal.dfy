/**
 * Decimal text of integers: Python's `str()` of an int, and the fixed-width
 * zero-padded fields that `strftime` writes for `%Y`, `%m`, `%d`, `%H`, `%M`
 * and `%S`.
 */
module Decimal {
  import opened Common

  predicate IsDigit(c: char) {
    '0' <= c <= '9'
  }

  function DigitChar(d: nat): (c: char)
    requires d < 10
    ensures IsDigit(c) && c as int - '0' as int == d
  {
    ('0' as int + d) as char
  }

  /** Value of a string of decimal digits, most significant first. */
  function Value(s: string): nat
    requires forall i :: 0 <= i < |s| ==> IsDigit(s[i])
  {
    if |s| == 0 then 0
    else
      assert IsDigit(s[|s| - 1]);
      10 * Value(s[..|s| - 1]) + (s[|s| - 1] as int - '0' as int)
  }

  /** Shortest decimal digits of `n` (no leading zero except for 0 itself). */
  function NatText(n: nat): (s: string)
    ensures |s| > 0
    ensures forall i :: 0 <= i < |s| ==> IsDigit(s[i])
    ensures |s| > 1 ==> s[0] != '0'
    decreases n
  {
    if n < 10 then [DigitChar(n)] else NatText(n / 10) + [DigitChar(n % 10)]
  }

  lemma {:induction false} NatTextValue(n: nat)
    ensures Value(NatText(n)) == n
    decreases n
  {
    if n >= 10 {
      NatTextValue(n / 10);
      var s := NatText(n);
      assert s[..|s| - 1] == NatText(n / 10);
    }
  }

  /** Python's `str(i)` for an int: an optional minus sign, then the digits. */
  function IntText(i: int): (s: string)
    ensures |s| > 0
    ensures forall k :: 0 <= k < |s| ==> IsDigit(s[k]) || (k == 0 && s[k] == '-')
    ensures s[0] == '-' <==> i < 0
    ensures |s| > 1 ==> s[0] != '0' && (s[0] == '-' ==> s[1] != '0')
  {
    if i < 0 then "-" + NatText(-i) else NatText(i)
  }

  /** Reads back what `IntText` writes; None for anything else. */
  function ParseInt(s: string): Option<int> {
    if |s| > 0 && s[0] == '-' then
      (if |s| > 1 && AllDigits(s[1..]) then Some(-(Value(s[1..]) as int)) else None)
    else if |s| > 0 && AllDigits(s) then Some(Value(s) as int)
    else None
  }

  predicate AllDigits(s: string) {
    forall i :: 0 <= i < |s| ==> IsDigit(s[i])
  }

  /** Every integer's decimal text reads back as that integer. */
  lemma IntTextRoundTrip(i: int)
    ensures ParseInt(IntText(i)) == Some(i)
  {
    if i < 0 {
      NatTextValue(-i);
      assert IntText(i)[1..] == NatText(-i);
    } else {
      NatTextValue(i);
    }
  }

  function DigitValue(c: char): (d: nat)
    requires IsDigit(c)
    ensures d < 10
  {
    c as int - '0' as int
  }

  /** Two digits of `n`, zero-padded: what `%m`, `%d`, `%H`, `%M`, `%S` write. */
  function Pad2(n: nat): (s: string)
    requires n < 100
    ensures |s| == 2 && IsDigit(s[0]) && IsDigit(s[1])
  {
    [DigitChar(n / 10), DigitChar(n % 10)]
  }

  /** Four digits of `n`, zero-padded: what `%Y` writes for a year below 10000. */
  function Pad4(n: nat): (s: string)
    requires n < 10000
    ensures |s| == 4 && forall i :: 0 <= i < 4 ==> IsDigit(s[i])
  {
    Pad2(n / 100) + Pad2(n % 100)
  }

  /** Value of two decimal digit characters. */
  function Value2(hi: char, lo: char): (n: nat)
    requires IsDigit(hi) && IsDigit(lo)
    ensures n < 100
  {
    10 * DigitValue(hi) + DigitValue(lo)
  }

  /** Value of four decimal digit characters. */
  function Value4(a: char, b: char, c: char, d: char): (n: nat)
    requires IsDigit(a) && IsDigit(b) && IsDigit(c) && IsDigit(d)
    ensures n < 10000
  {
    100 * Value2(a, b) + Value2(c, d)
  }

  lemma Pad2RoundTrip(n: nat)
    requires n < 100
    ensures Value2(Pad2(n)[0], Pad2(n)[1]) == n
  {
  }

  lemma Pad4RoundTrip(n: nat)
    requires n < 10000
    ensures Value4(Pad4(n)[0], Pad4(n)[1], Pad4(n)[2], Pad4(n)[3]) == n
  {
    Pad2RoundTrip(n / 100);
    Pad2RoundTrip(n % 100);
  }
}
