/** Decimal rendering of integers, as .NET's `Int32.ToString()` produces it with
    an invariant culture (optional leading '-', then digits, no leading zero),
    together with a parser that is its inverse. The event-log part headers and the
    exit-event message both embed numbers rendered this way. */
module Decimal {
  import opened Optional

  predicate IsDigit(c: char) {
    '0' <= c <= '9'
  }

  predicate AllDigits(s: string) {
    forall i :: 0 <= i < |s| ==> IsDigit(s[i])
  }

  function DigitChar(d: nat): (c: char)
    requires d < 10
    ensures IsDigit(c)
  {
    "0123456789"[d]
  }

  function DigitValue(c: char): (d: nat)
    requires IsDigit(c)
    ensures d < 10
  {
    (c as int) - ('0' as int)
  }

  lemma DigitValueOfChar(d: nat)
    requires d < 10
    ensures DigitValue(DigitChar(d)) == d
  {
  }

  /** The shortest decimal numeral for `n`. */
  function NatToString(n: nat): (s: string)
    ensures |s| > 0
    ensures AllDigits(s)
    ensures |s| > 1 ==> s[0] != '0'
    decreases n
  {
    if n < 10 then [DigitChar(n)]
    else NatToString(n / 10) + [DigitChar(n % 10)]
  }

  /** `Int32.ToString()`: a minus sign for negative values, then the magnitude. */
  function IntToString(i: int): (s: string)
    ensures |s| > 0
    ensures i >= 0 <==> s[0] != '-'
  {
    if i < 0 then "-" + NatToString(-i) else NatToString(i)
  }

  /** The value of a numeral read most significant digit first. */
  function ParseDigits(s: string): nat
    requires AllDigits(s)
    decreases |s|
  {
    if |s| == 0 then 0
    else ParseDigits(s[..|s| - 1]) * 10 + DigitValue(s[|s| - 1])
  }

  /** Reads the integer at the front of `s` (an optional '-' and at least one
      digit, as many digits as follow) and returns it with the rest of `s`; `None`
      when `s` does not start with such a numeral. */
  function TakeInt(s: string): (r: Option<(int, string)>)
  {
    var negative := |s| > 0 && s[0] == '-';
    var (d, rest) := TakeDigits(if negative then s[1..] else s);
    if |d| == 0 then None
    else Some((if negative then 0 - ParseDigits(d) else ParseDigits(d), rest))
  }

  /** Reads back what `IntToString` writes: the whole text must be one numeral. */
  function ParseInt(s: string): (r: Option<int>)
    ensures r.Some? ==> TakeInt(s) == Some((r.value, ""))
  {
    var t := TakeInt(s);
    if t.Some? && t.value.1 == "" then Some(t.value.0) else None
  }

  lemma {:induction false} ParseNatToString(n: nat)
    ensures ParseDigits(NatToString(n)) == n
    decreases n
  {
    if n < 10 {
      DigitValueOfChar(n);
    } else {
      var s := NatToString(n);
      assert s[..|s| - 1] == NatToString(n / 10);
      ParseNatToString(n / 10);
      DigitValueOfChar(n % 10);
    }
  }

  /** A rendered integer followed by something other than a digit is read back
      exactly, and the reader stops right after it. */
  lemma TakeIntOfIntToString(i: int, t: string)
    requires |t| == 0 || !IsDigit(t[0])
    ensures TakeInt(IntToString(i) + t) == Some((i, t))
  {
    if i < 0 {
      TakeIntOfNegative(i, t);
    } else {
      TakeIntOfNonNegative(i, t);
    }
  }

  lemma TakeIntOfNegative(i: int, t: string)
    requires i < 0
    requires |t| == 0 || !IsDigit(t[0])
    ensures TakeInt(IntToString(i) + t) == Some((i, t))
  {
    var n: nat := -i;
    assert IntToString(i) == "-" + NatToString(n);
    TakeIntOfMinusMagnitude(n, t);
  }

  lemma TakeIntOfMinusMagnitude(n: nat, t: string)
    requires |t| == 0 || !IsDigit(t[0])
    ensures TakeInt("-" + NatToString(n) + t) == Some((0 - n, t))
  {
    assert "-" + NatToString(n) + t == "-" + (NatToString(n) + t);
    TakeIntOfMinusNumeral(NatToString(n), t);
    ParseNatToString(n);
  }

  lemma TakeIntOfMinusNumeral(digits: string, t: string)
    requires |digits| > 0 && AllDigits(digits)
    requires |t| == 0 || !IsDigit(t[0])
    ensures TakeInt("-" + (digits + t)) == Some((0 - ParseDigits(digits), t))
  {
    TakeDigitsOfNumeral(digits, t);
    TakeIntAfterMinus(digits + t, digits, t);
  }

  lemma TakeIntAfterMinus(body: string, d: string, rest: string)
    requires |d| > 0 && TakeDigits(body) == (d, rest)
    ensures TakeInt("-" + body) == Some((0 - ParseDigits(d), rest))
  {
    assert ("-" + body)[1..] == body;
  }

  lemma TakeIntOfNonNegative(i: int, t: string)
    requires i >= 0
    requires |t| == 0 || !IsDigit(t[0])
    ensures TakeInt(IntToString(i) + t) == Some((i, t))
  {
    var digits := NatToString(i);
    assert (digits + t)[0] == digits[0];
    TakeDigitsOfNumeral(digits, t);
    ParseNatToString(i);
  }

  /** Rendering and reading back an exit code is the identity. */
  lemma ParseIntToString(i: int)
    ensures ParseInt(IntToString(i)) == Some(i)
  {
    TakeIntOfIntToString(i, "");
    assert IntToString(i) + "" == IntToString(i);
  }

  /** Two numbers render to the same text only if they are equal. */
  lemma NatToStringInjective(m: nat, n: nat)
    requires NatToString(m) == NatToString(n)
    ensures m == n
  {
    ParseNatToString(m);
    ParseNatToString(n);
  }

  /** The longest prefix of `s` made of digits, and what follows it. */
  function TakeDigits(s: string): (r: (string, string))
    ensures AllDigits(r.0)
    ensures r.0 + r.1 == s
    ensures |r.1| == 0 || !IsDigit(r.1[0])
    decreases |s|
  {
    if |s| > 0 && IsDigit(s[0]) then
      var (d, rest) := TakeDigits(s[1..]);
      assert [s[0]] + d + rest == [s[0]] + s[1..] == s;
      ([s[0]] + d, rest)
    else
      ([], s)
  }

  /** A digit run followed by a non-digit is split exactly at that boundary. */
  lemma {:induction false} TakeDigitsOfNumeral(d: string, t: string)
    requires AllDigits(d)
    requires |t| == 0 || !IsDigit(t[0])
    ensures TakeDigits(d + t) == (d, t)
    decreases |d|
  {
    if |d| == 0 {
      assert d + t == t;
    } else {
      assert (d + t)[1..] == d[1..] + t;
      TakeDigitsOfNumeral(d[1..], t);
      assert [d[0]] + d[1..] == d;
    }
  }
}
