/**
 Decimal rendering of integers, as `String.valueOf(long)` and the `%d`
 conversion of `String.format(Locale.ENGLISH, …)` produce it: an optional
 minus sign followed by the digits, with no grouping and no leading zeros.
 */
module Decimal {

  import opened Wrappers

  predicate IsDigit(c: char) {
    '0' <= c <= '9'
  }

  function DigitChar(d: nat): (c: char)
    requires d < 10
    ensures IsDigit(c)
    ensures c as int - '0' as int == d
  {
    ['0', '1', '2', '3', '4', '5', '6', '7', '8', '9'][d]
  }

  /** The digits of a natural number, most significant first, without leading zeros. */
  function Digits(n: nat): (s: string)
    ensures |s| > 0
    ensures forall i :: 0 <= i < |s| ==> IsDigit(s[i])
    ensures n > 0 ==> s[0] != '0'
    decreases n
  {
    if n < 10 then [DigitChar(n)] else Digits(n / 10) + [DigitChar(n % 10)]
  }

  /** The decimal text of `n`: a zero is written alone, and no other digit string starts with one. */
  function Dec(n: int): (s: string)
    ensures |s| > 0
    ensures forall i :: 0 <= i < |s| ==> IsDigit(s[i]) || (i == 0 && s[i] == '-')
    ensures (n < 0) == (s[0] == '-')
    ensures n < 0 ==> |s| > 1
    ensures var d := if n < 0 then s[1..] else s;
            d[0] == '0' ==> d == "0"
  {
    if n < 0 then "-" + Digits(-n) else Digits(n)
  }

  /** The number a digit string denotes, 0 for the empty one (an independent reading of the text). */
  function DigitsValue(s: string): nat
    requires AllDigits(s)
  {
    if |s| == 0 then 0
    else
      assert IsDigit(s[|s| - 1]);
      DigitsValue(s[..|s| - 1]) * 10 + (s[|s| - 1] as int - '0' as int)
  }

  /** Reads an optionally signed decimal number; fails on anything else. */
  function Parse(s: string): Option<int>
  {
    if |s| > 1 && s[0] == '-' && AllDigits(s[1..]) then Some(0 - DigitsValue(s[1..]) as int)
    else if |s| > 0 && AllDigits(s) then Some(DigitsValue(s))
    else None
  }

  predicate AllDigits(s: string) {
    forall i :: 0 <= i < |s| ==> IsDigit(s[i])
  }

  lemma {:induction false} DigitsValueOfDigits(n: nat)
    ensures DigitsValue(Digits(n)) == n
    decreases n
  {
    if n >= 10 {
      var s := Digits(n);
      var p := Digits(n / 10);
      assert s == p + [DigitChar(n % 10)];
      assert s[..|s| - 1] == p;
      DigitsValueOfDigits(n / 10);
    }
  }

  /** Reading back the rendered text gives the number: `Dec` is injective. */
  lemma ParseDec(n: int)
    ensures Parse(Dec(n)) == Some(n)
  {
    var s := Dec(n);
    if n < 0 {
      assert s == "-" + Digits(-n);
      ParseNegative(Digits(-n), -n);
    } else {
      assert s == Digits(n);
      DigitsValueOfDigits(n);
    }
  }

  lemma ParseNegative(d: string, m: nat)
    requires d == Digits(m) && m > 0
    ensures Parse("-" + d) == Some(-(m as int))
  {
    var s := "-" + d;
    assert s[1..] == d;
    DigitsValueOfDigits(m);
  }

  /** Rendered numbers never contain the characters the formatter treats specially. */
  lemma DecHasNoSpecial(n: int)
    ensures '|' !in Dec(n) && '{' !in Dec(n) && '%' !in Dec(n)
  {
    var s := Dec(n);
    forall i | 0 <= i < |s|
      ensures s[i] != '|' && s[i] != '{' && s[i] != '%'
    {
      assert IsDigit(s[i]) || s[i] == '-';
    }
  }
}
