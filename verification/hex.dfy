/**
 * Hexadecimal text to bytes, as Python's `bytearray.fromhex` does it on an
 * ASCII string: digits are read in pairs (either case), and ASCII whitespace
 * may stand between pairs but never inside one.
 */
module Hex {
  import opened Common

  /** The whitespace class `bytearray.fromhex` skips: space, tab, LF, VT, FF, CR. */
  predicate IsSpace(c: char) {
    c == ' ' || 9 <= c as int <= 13
  }

  predicate IsHexDigit(c: char) {
    ('0' <= c <= '9') || ('a' <= c <= 'f') || ('A' <= c <= 'F')
  }

  function DigitValue(c: char): (v: nat)
    requires IsHexDigit(c)
    ensures v < 16
  {
    if '0' <= c <= '9' then c as int - '0' as int
    else if 'a' <= c <= 'f' then c as int - 'a' as int + 10
    else c as int - 'A' as int + 10
  }

  function PairValue(hi: char, lo: char): byte
    requires IsHexDigit(hi) && IsHexDigit(lo)
  {
    16 * DigitValue(hi) + DigitValue(lo)
  }

  /**
   * Decodes `s`, or None where Python raises ValueError: a character that is
   * neither a hex digit nor whitespace, whitespace inside a pair, or a
   * dangling last digit.
   */
  function FromHex(s: string): (r: Option<seq<byte>>)
    ensures r.Some? ==> forall i :: 0 <= i < |s| ==> IsHexDigit(s[i]) || IsSpace(s[i])
    ensures r.Some? ==> 2 * |r.value| <= |s|
    decreases |s|
  {
    if |s| == 0 then Some([])
    else if IsSpace(s[0]) then FromHex(s[1..])
    else if |s| < 2 || !IsHexDigit(s[0]) || !IsHexDigit(s[1]) then None
    else
      match FromHex(s[2..])
      case None => None
      case Some(rest) => Some([PairValue(s[0], s[1])] + rest)
  }

  /** The hex digits of `s` in order, whitespace dropped. */
  function Digits(s: string): string {
    if |s| == 0 then []
    else if IsSpace(s[0]) then Digits(s[1..])
    else [s[0]] + Digits(s[1..])
  }

  /** Reads a string of hex digits two at a time. */
  function Pairs(d: string): (r: seq<byte>)
    requires |d| % 2 == 0
    requires forall i :: 0 <= i < |d| ==> IsHexDigit(d[i])
    ensures 2 * |r| == |d|
  {
    if |d| == 0 then [] else [PairValue(d[0], d[1])] + Pairs(d[2..])
  }

  /**
   * The declarative acceptance condition: only digits and whitespace occur,
   * and every digit that starts a pair (an even number of digits precede it)
   * is immediately followed by a second digit.
   */
  ghost predicate WellFormed(s: string) {
    && (forall i :: 0 <= i < |s| ==> IsHexDigit(s[i]) || IsSpace(s[i]))
    && (forall i :: 0 <= i < |s| && IsHexDigit(s[i]) && |Digits(s[..i])| % 2 == 0 ==>
          i + 1 < |s| && IsHexDigit(s[i + 1]))
  }

  lemma {:induction false} DigitsAppend(a: string, b: string)
    ensures Digits(a + b) == Digits(a) + Digits(b)
    decreases |a|
  {
    if |a| == 0 {
      assert a + b == b;
    } else {
      assert (a + b)[1..] == a[1..] + b;
      DigitsAppend(a[1..], b);
    }
  }

  lemma {:induction false} DigitsOfHexString(s: string)
    requires forall i :: 0 <= i < |s| ==> IsHexDigit(s[i])
    ensures Digits(s) == s
    decreases |s|
  {
    if |s| > 0 {
      DigitsOfHexString(s[1..]);
    }
  }

  /** Prefixes of `s` after dropping one leading whitespace character. */
  lemma ShiftSpace(s: string, i: nat)
    requires 0 < i <= |s| && IsSpace(s[0])
    ensures Digits(s[..i]) == Digits(s[1..][..i - 1])
  {
    assert s[..i] == [s[0]] + s[1..][..i - 1];
    DigitsAppend([s[0]], s[1..][..i - 1]);
  }

  /** Prefixes of `s` after dropping one leading pair of digits. */
  lemma ShiftPair(s: string, i: nat)
    requires 2 <= i <= |s| && IsHexDigit(s[0]) && IsHexDigit(s[1])
    ensures |Digits(s[..i])| == 2 + |Digits(s[2..][..i - 2])|
  {
    assert s[..i] == s[..2] + s[2..][..i - 2];
    DigitsAppend(s[..2], s[2..][..i - 2]);
    DigitsOfHexString(s[..2]);
  }

  /**
   * `FromHex` accepts exactly the well-formed strings, and what it returns
   * is the digits read in pairs.
   */
  lemma {:induction false} FromHexCharacterized(s: string)
    ensures FromHex(s).Some? <==> WellFormed(s)
    ensures FromHex(s).Some? ==>
      |Digits(s)| % 2 == 0 &&
      (forall i :: 0 <= i < |Digits(s)| ==> IsHexDigit(Digits(s)[i])) &&
      FromHex(s).value == Pairs(Digits(s))
    decreases |s|
  {
    if |s| == 0 {
    } else if IsSpace(s[0]) {
      FromHexCharacterized(s[1..]);
      WellFormedSpace(s);
    } else if |s| < 2 || !IsHexDigit(s[0]) || !IsHexDigit(s[1]) {
      if IsHexDigit(s[0]) {
        assert Digits(s[..0]) == [];
        assert !WellFormed(s);
      } else {
        assert !WellFormed(s);
      }
    } else {
      FromHexCharacterized(s[2..]);
      WellFormedPair(s);
      assert Digits(s) == [s[0], s[1]] + Digits(s[2..]);
      var d := Digits(s);
      if FromHex(s).Some? {
        assert d[2..] == Digits(s[2..]);
      }
    }
  }

  lemma WellFormedSpace(s: string)
    requires |s| > 0 && IsSpace(s[0])
    ensures WellFormed(s) <==> WellFormed(s[1..])
  {
    var t := s[1..];
    if WellFormed(s) {
      forall i | 0 <= i < |t| && IsHexDigit(t[i]) && |Digits(t[..i])| % 2 == 0
        ensures i + 1 < |t| && IsHexDigit(t[i + 1])
      {
        ShiftSpace(s, i + 1);
        assert s[i + 1] == t[i];
      }
    }
    if WellFormed(t) {
      forall i | 0 <= i < |s| && IsHexDigit(s[i]) && |Digits(s[..i])| % 2 == 0
        ensures i + 1 < |s| && IsHexDigit(s[i + 1])
      {
        assert i > 0;
        ShiftSpace(s, i);
        assert t[i - 1] == s[i];
      }
    }
  }

  lemma WellFormedPair(s: string)
    requires |s| >= 2 && IsHexDigit(s[0]) && IsHexDigit(s[1])
    ensures WellFormed(s) <==> WellFormed(s[2..])
  {
    var t := s[2..];
    if WellFormed(s) {
      forall i | 0 <= i < |t| && IsHexDigit(t[i]) && |Digits(t[..i])| % 2 == 0
        ensures i + 1 < |t| && IsHexDigit(t[i + 1])
      {
        ShiftPair(s, i + 2);
        assert s[i + 2] == t[i];
      }
    }
    if WellFormed(t) {
      forall i | 0 <= i < |s| && IsHexDigit(s[i]) && |Digits(s[..i])| % 2 == 0
        ensures i + 1 < |s| && IsHexDigit(s[i + 1])
      {
        if i == 1 {
          assert s[..1] == [s[0]];
          assert Digits(s[..1]) == [s[0]];
        } else if i >= 2 {
          ShiftPair(s, i);
          assert t[i - 2] == s[i];
        }
      }
    }
  }

  /** The two digits `bytes.hex()` writes for one byte, in the chosen case. */
  function ByteHex(b: byte, upper: bool): string {
    [HexChar(b / 16, upper), HexChar(b % 16, upper)]
  }

  function HexChar(v: nat, upper: bool): (c: char)
    requires v < 16
    ensures IsHexDigit(c) && DigitValue(c) == v
  {
    if v < 10 then ('0' as int + v) as char
    else if upper then ('A' as int + v - 10) as char
    else ('a' as int + v - 10) as char
  }

  /** Hex text of `b`, two digits per byte, no separators. */
  function ToHex(b: seq<byte>, upper: bool): (s: string)
    ensures |s| == 2 * |b|
  {
    if |b| == 0 then [] else ByteHex(b[0], upper) + ToHex(b[1..], upper)
  }

  /** Decoding the hex text of any bytes, in either case, gives the bytes back. */
  lemma {:induction false} FromHexToHex(b: seq<byte>, upper: bool)
    ensures FromHex(ToHex(b, upper)) == Some(b)
    decreases |b|
  {
    if |b| > 0 {
      var s := ToHex(b, upper);
      FromHexToHex(b[1..], upper);
      assert s[2..] == ToHex(b[1..], upper);
      assert [b[0]] + b[1..] == b;
    }
  }

  /** Whitespace before the hex text is skipped. */
  lemma {:induction false} FromHexSkipsLeadingSpace(w: string, s: string)
    requires forall i :: 0 <= i < |w| ==> IsSpace(w[i])
    ensures FromHex(w + s) == FromHex(s)
    decreases |w|
  {
    if |w| > 0 {
      assert (w + s)[1..] == w[1..] + s;
      FromHexSkipsLeadingSpace(w[1..], s);
    } else {
      assert w + s == s;
    }
  }

  /** Any character that is neither a digit nor whitespace makes decoding fail. */
  lemma BadCharacterRejected(s: string, i: nat)
    requires i < |s| && !IsHexDigit(s[i]) && !IsSpace(s[i])
    ensures FromHex(s).None?
  {
  }

  /** A string of digits alone decodes exactly when it has an even length. */
  lemma {:induction false} OddDigitCountRejected(s: string)
    requires forall i :: 0 <= i < |s| ==> IsHexDigit(s[i])
    ensures FromHex(s).Some? <==> |s| % 2 == 0
    decreases |s|
  {
    if |s| >= 2 {
      OddDigitCountRejected(s[2..]);
    }
  }
}
