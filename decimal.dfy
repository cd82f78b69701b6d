/** Base-10 text of integers as the C library's `itoa`/`ltoa`/`ultoa` produce it, and the
    C library's `atoi`, on strings without the terminating NUL. */
module Decimal {

  const Digits: string := "0123456789"

  predicate IsDigit(c: char) {
    '0' <= c <= '9'
  }

  function DigitValue(c: char): (d: nat)
    requires IsDigit(c)
    ensures d < 10 && Digits[d] == c
  {
    (c as int) - ('0' as int)
  }

  predicate AllDigits(s: string) {
    forall i :: 0 <= i < |s| ==> IsDigit(s[i])
  }

  /** Decimal text of a non-negative value, most significant digit first, no leading zeros. */
  function DecimalText(n: nat): (s: string)
    ensures 1 <= |s| && AllDigits(s)
    ensures n < 10 <==> |s| == 1
    ensures 1 < |s| ==> s[0] != '0'
    decreases n
  {
    if n < 10 then [Digits[n]] else DecimalText(n / 10) + [Digits[n % 10]]
  }

  /** Decimal text of a signed value: a '-' before the text of |n| when n is negative. */
  function SignedText(n: int): (s: string)
    ensures |s| == (if n < 0 then 1 else 0) + |DecimalText(if n < 0 then -n else n)|
  {
    if n < 0 then "-" + DecimalText(-n) else DecimalText(n)
  }

  function Pow10(k: nat): (p: nat)
    ensures p >= 1
  {
    if k == 0 then 1 else 10 * Pow10(k - 1)
  }

  lemma Pow10Table()
    ensures Pow10(1) == 10 && Pow10(2) == 100 && Pow10(3) == 1000 && Pow10(4) == 10000
    ensures Pow10(5) == 100000 && Pow10(6) == 1000000 && Pow10(7) == 10000000
    ensures Pow10(8) == 100000000 && Pow10(9) == 1000000000 && Pow10(10) == 10000000000
  {
    assert Pow10(1) == 10;
    assert Pow10(2) == 100;
    assert Pow10(3) == 1000;
    assert Pow10(4) == 10000;
    assert Pow10(5) == 100000;
    assert Pow10(6) == 1000000;
    assert Pow10(7) == 10000000;
    assert Pow10(8) == 100000000;
    assert Pow10(9) == 1000000000;
  }

  /** The text of n has exactly k characters when n lies in [10^(k-1), 10^k). */
  lemma {:induction false} TextLengthInRange(n: nat, k: nat)
    requires 1 <= k
    requires k == 1 || Pow10(k - 1) <= n
    requires n < Pow10(k)
    ensures |DecimalText(n)| == k
    decreases k
  {
    if k > 1 {
      assert Pow10(k - 1) == 10 * Pow10(k - 2);
      assert n >= 10;
      assert n / 10 < Pow10(k - 1);
      assert k - 1 == 1 || Pow10(k - 2) <= n / 10;
      TextLengthInRange(n / 10, k - 1);
    }
  }

  /** A longer number never has a shorter text. */
  lemma {:induction false} TextLengthMonotone(a: nat, b: nat)
    requires a <= b
    ensures |DecimalText(a)| <= |DecimalText(b)|
    decreases b
  {
    if a >= 10 {
      TextLengthMonotone(a / 10, b / 10);
    }
  }

  /** Value of a string of decimal digits, most significant first. */
  function DigitsValue(s: string): nat
    requires AllDigits(s)
  {
    if s == [] then 0 else 10 * DigitsValue(s[..|s| - 1]) + DigitValue(s[|s| - 1])
  }

  /** The longest prefix of s made of digits (DigitRunIsLongestPrefix). */
  function DigitRun(s: string): (r: string)
    ensures |r| <= |s| && AllDigits(r)
  {
    if s == [] || !IsDigit(s[0]) then [] else [s[0]] + DigitRun(s[1..])
  }

  lemma {:induction false} DigitRunIsLongestPrefix(s: string)
    ensures var r := DigitRun(s);
            && r == s[..|r|]
            && (|r| < |s| ==> !IsDigit(s[|r|]))
  {
    if s != [] && IsDigit(s[0]) {
      DigitRunIsLongestPrefix(s[1..]);
      var r := DigitRun(s[1..]);
      assert DigitRun(s) == [s[0]] + r;
      assert s == [s[0]] + s[1..];
    }
  }

  predicate IsSpace(c: char) {
    c == ' ' || c == '\t' || c == '\n' || c == '\r' || c == '\U{000B}' || c == '\U{000C}'
  }

  /** What is left of s after its leading white space (SkipSpaceIsSuffix). */
  function SkipSpace(s: string): (r: string)
    ensures |r| <= |s|
  {
    if s != [] && IsSpace(s[0]) then SkipSpace(s[1..]) else s
  }

  lemma {:induction false} SkipSpaceIsSuffix(s: string)
    ensures var r := SkipSpace(s);
            && r == s[|s| - |r|..]
            && (r == [] || !IsSpace(r[0]))
  {
    if s != [] && IsSpace(s[0]) {
      SkipSpaceIsSuffix(s[1..]);
      assert s[1..][|s| - 1 - |SkipSpace(s[1..])|..] == s[|s| - |SkipSpace(s)|..];
    }
  }

  /** `atoi`: leading white space, an optional sign, then the longest run of digits;
      0 when there are no digits. The value is exact: `atoi` overflow is not modelled. */
  function Atoi(s: string): int {
    var t := SkipSpace(s);
    if t != [] && t[0] == '-' then 0 - DigitsValue(DigitRun(t[1..])) as int
    else if t != [] && t[0] == '+' then DigitsValue(DigitRun(t[1..])) as int
    else DigitsValue(DigitRun(t)) as int
  }

  lemma {:induction false} DigitRunOfDigits(s: string)
    requires AllDigits(s)
    ensures DigitRun(s) == s
  {
    if s != [] {
      DigitRunOfDigits(s[1..]);
    }
  }

  lemma {:induction false} DigitsValueOfText(n: nat)
    ensures DigitsValue(DecimalText(n)) == n
    decreases n
  {
    var s := DecimalText(n);
    if n >= 10 {
      DigitsValueOfText(n / 10);
      assert s[..|s| - 1] == DecimalText(n / 10);
    }
  }

  /** `atoi` of a nonempty run of digits is its value. */
  lemma AtoiOfDigits(s: string)
    requires s != [] && AllDigits(s)
    ensures Atoi(s) == DigitsValue(s)
  {
    assert IsDigit(s[0]) && !IsSpace(s[0]);
    var t := SkipSpace(s);
    assert t == s;
    assert t[0] != '-' && t[0] != '+';
    DigitRunOfDigits(t);
  }

  /** `atoi` reads back every text that `itoa` writes for a non-negative value. */
  lemma AtoiOfDecimalText(n: nat)
    ensures Atoi(DecimalText(n)) == n
  {
    AtoiOfDigits(DecimalText(n));
    DigitsValueOfText(n);
  }
}
