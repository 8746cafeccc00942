/** Decimal numerals of non-negative integers: the text that JavaScript's
    number-to-string conversion gives for an entry id, the integer part of an
    amount and a percentage, and the value such a numeral denotes. */
module Decimal {

  predicate IsDigit(c: char) {
    '0' <= c <= '9'
  }

  predicate AllDigits(s: string) {
    forall i :: 0 <= i < |s| ==> IsDigit(s[i])
  }

  function DigitValue(c: char): (d: nat)
    requires IsDigit(c)
    ensures d < 10
  {
    (c as int) - ('0' as int)
  }

  function DigitChar(d: nat): (c: char)
    requires d < 10
    ensures IsDigit(c) && DigitValue(c) == d
  {
    (('0' as int) + d) as char
  }

  /** The shortest numeral of `n`: one digit for `n < 10`, and no leading zero. */
  function Digits(n: nat): (s: string)
    ensures |s| >= 1 && AllDigits(s)
    ensures n > 0 ==> s[0] != '0'
    ensures n == 0 ==> s == "0"
  {
    if n < 10 then [DigitChar(n)] else Digits(n / 10) + [DigitChar(n % 10)]
  }

  /** The number a string of digits denotes, read most significant digit first. */
  function ValueOf(s: string): nat
    requires AllDigits(s)
  {
    if s == [] then 0 else ValueOf(s[..|s| - 1]) * 10 + DigitValue(s[|s| - 1])
  }

  /** Reading back the numeral of `n` gives `n`. */
  lemma {:induction false} ValueOfDigits(n: nat)
    ensures ValueOf(Digits(n)) == n
  {
    if n >= 10 {
      var s := Digits(n);
      assert s[..|s| - 1] == Digits(n / 10);
      ValueOfDigits(n / 10);
    }
  }

  /** Different numbers have different numerals. */
  lemma DigitsInjective(m: nat, n: nat)
    ensures Digits(m) == Digits(n) ==> m == n
  {
    ValueOfDigits(m);
    ValueOfDigits(n);
  }

  /** Appending two digits multiplies by a hundred and adds their value. */
  lemma ValueOfAppendTwo(s: string, t: string)
    requires AllDigits(s) && AllDigits(t) && |t| == 2
    ensures AllDigits(s + t)
    ensures ValueOf(s + t) == ValueOf(s) * 100 + ValueOf(t)
  {
    var u := s + t;
    assert u[..|u| - 1] == s + [t[0]];
    assert (s + [t[0]])[..|s|] == s;
    assert ValueOf(s + [t[0]]) == ValueOf(s) * 10 + DigitValue(t[0]);
    assert t[..|t| - 1] == [t[0]] && [t[0]][..0] == [];
    assert ValueOf([t[0]]) == DigitValue(t[0]);
    assert ValueOf(t) == DigitValue(t[0]) * 10 + DigitValue(t[1]);
  }

  /** A numeral has more than three digits exactly when the number is at least 1000. */
  lemma DigitsLength(n: nat)
    ensures |Digits(n)| > 3 <==> n >= 1000
  {
    if n >= 10 {
      assert |Digits(n)| == |Digits(n / 10)| + 1;
      if n / 10 >= 10 {
        assert |Digits(n / 10)| == |Digits(n / 100)| + 1;
        if n / 100 >= 10 {
          assert |Digits(n / 100)| == |Digits(n / 1000)| + 1;
        }
      }
    }
  }
}
