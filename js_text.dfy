/**
 * The pieces of JavaScript string semantics the clock formatting relies on:
 * converting an integral Number to its decimal string (as `"0" + n` and
 * `day + " / " + ...` do implicitly), `String.prototype.slice` with one
 * argument, and reading a digit string back as a number.
 */
module JsText {
  import opened Wrappers

  predicate IsDigit(c: char) {
    '0' <= c <= '9'
  }

  predicate AllDigits(s: string) {
    forall i :: 0 <= i < |s| ==> IsDigit(s[i])
  }

  /** The character that writes the decimal digit `d`. */
  function DigitChar(d: nat): (c: char)
    requires d < 10
    ensures IsDigit(c)
  {
    ('0' as int + d) as char
  }

  /** The value of a decimal digit character; inverse of DigitChar. */
  function DigitValue(c: char): (d: nat)
    requires IsDigit(c)
    ensures d < 10 && DigitChar(d) == c
  {
    c as int - '0' as int
  }

  function Pow10(k: nat): (p: nat)
    ensures p >= 1
  {
    if k == 0 then 1 else 10 * Pow10(k - 1)
  }

  /**
   * The string JavaScript produces for a non-negative integral Number:
   * its shortest decimal form, without leading zeros.
   */
  function Decimal(n: nat): (s: string)
    ensures |s| > 0 && AllDigits(s)
    ensures s[0] == '0' ==> n == 0
    ensures s[|s| - 1] == DigitChar(n % 10)
  {
    if n < 10 then [DigitChar(n)] else Decimal(n / 10) + [DigitChar(n % 10)]
  }

  /** The string JavaScript produces for any integral Number: a minus sign, if any, then Decimal. */
  function NumberString(x: int): (s: string)
    ensures |s| > 0
    ensures s[0] == '-' <==> x < 0
  {
    if x < 0 then "-" + Decimal(-x) else Decimal(x)
  }

  /**
   * `s.slice(start)`: a negative start counts from the end of the string,
   * and a start outside the string is clamped to it.
   */
  function Slice(s: string, start: int): (r: string)
    ensures |r| <= |s| && r == s[|s| - |r|..]
    ensures start < 0 ==> |r| == (if -start < |s| then -start else |s|)
    ensures 0 <= start ==> |r| == (if start < |s| then |s| - start else 0)
  {
    var from :=
      if start < 0 then (if |s| + start < 0 then 0 else |s| + start)
      else (if start > |s| then |s| else start);
    s[from..]
  }

  /** The number a string of decimal digits denotes (leading zeros allowed). */
  function DigitsValue(s: string): nat
    requires AllDigits(s)
  {
    if s == [] then 0 else DigitsValue(s[..|s| - 1]) * 10 + DigitValue(s[|s| - 1])
  }

  /** Two digit characters denote ten times the first digit plus the second. */
  lemma TwoDigitsValue(a: nat, b: nat)
    requires a < 10 && b < 10
    ensures DigitsValue([DigitChar(a), DigitChar(b)]) == 10 * a + b
  {
    var s, t := [DigitChar(a), DigitChar(b)], [DigitChar(a)];
    assert t[..|t| - 1] == [];
    assert DigitsValue(t) == a;
    assert s[..|s| - 1] == t;
  }

  /** Reads a non-empty string of decimal digits; anything else is None. */
  function ParseNat(s: string): (r: Option<nat>)
    ensures r.Some? <==> |s| > 0 && AllDigits(s)
  {
    if |s| > 0 && AllDigits(s) then Some(DigitsValue(s)) else None
  }

  /** Reads an optional minus sign followed by a non-empty string of decimal digits. */
  function ParseInt(s: string): (r: Option<int>)
    ensures |s| > 0 && s[0] != '-' ==> (r.Some? <==> ParseNat(s).Some?)
  {
    if |s| > 0 && s[0] == '-' then
      match ParseNat(s[1..])
      case Some(v) => Some(-(v as int))
      case None => None
    else
      match ParseNat(s)
      case Some(v) => Some(v)
      case None => None
  }

  /** Reading back the decimal form of a number gives the number. */
  lemma {:induction false} DecimalRoundTrip(n: nat)
    ensures ParseNat(Decimal(n)) == Some(n)
  {
    if n >= 10 {
      var s := Decimal(n);
      assert s[..|s| - 1] == Decimal(n / 10);
      DecimalRoundTrip(n / 10);
      assert DigitValue(s[|s| - 1]) == n % 10;
      assert DigitsValue(s) == n / 10 * 10 + n % 10;
    }
  }

  /** Reading back the string of any integral Number gives the number. */
  lemma NumberStringRoundTrip(x: int)
    ensures ParseInt(NumberString(x)) == Some(x)
  {
    if x < 0 {
      var s := NumberString(x);
      assert s[1..] == Decimal(-x);
      DecimalRoundTrip(-x);
    } else {
      DecimalRoundTrip(x);
    }
  }

  /** A number of exactly k digits is written with k characters. */
  lemma {:induction false} DecimalLength(n: nat, k: nat)
    requires 0 < k
    requires (k == 1 || Pow10(k - 1) <= n) && n < Pow10(k)
    ensures |Decimal(n)| == k
  {
    if k > 1 {
      DecimalLength(n / 10, k - 1);
    }
  }
}
