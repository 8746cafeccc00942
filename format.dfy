/** The text the user interface shows for amounts and percentages. An amount
    is an integer number of cents, so two decimals are always exact. */
module Format {
  import opened Decimal
  import opened Ledger

  function Abs(n: int): nat {
    if n < 0 then -n else n
  }

  /** '-' for an expense, '+' for anything else. */
  function SignChar(kind: Kind): char {
    if kind == Exp then '-' else '+'
  }

  /** The two decimals of an amount, with a leading zero when needed. */
  function TwoDigits(n: nat): (s: string)
    requires n < 100
    ensures |s| == 2 && AllDigits(s) && ValueOf(s) == n
  {
    var s := [DigitChar(n / 10), DigitChar(n % 10)];
    assert s[..1] == [s[0]] && [s[0]][..0] == [];
    assert ValueOf([s[0]]) == n / 10;
    assert ValueOf(s) == (n / 10) * 10 + n % 10;
    s
  }

  /** The characters of `s` that are digits, in order. */
  function DigitsOnly(s: string): (r: string)
    ensures AllDigits(r)
  {
    if s == [] then [] else (if IsDigit(s[0]) then [s[0]] else []) + DigitsOnly(s[1..])
  }

  lemma {:induction false} DigitsOnlyConcat(a: string, b: string)
    ensures DigitsOnly(a + b) == DigitsOnly(a) + DigitsOnly(b)
  {
    if a != [] {
      assert (a + b)[0] == a[0];
      assert (a + b)[1..] == a[1..] + b;
      DigitsOnlyConcat(a[1..], b);
    } else {
      assert a + b == b;
    }
  }

  lemma {:induction false} DigitsOnlyOfDigits(s: string)
    requires AllDigits(s)
    ensures DigitsOnly(s) == s
  {
    if s != [] {
      DigitsOnlyOfDigits(s[1..]);
    }
  }

  /** The integer part as `formatNumber` writes it: when it has more than three
      digits, one comma goes before the last three, and no other. */
  function GroupOnce(digits: string): (g: string)
    ensures |g| == |digits| + (if |digits| > 3 then 1 else 0)
    ensures |digits| <= 3 ==> g == digits
  {
    if |digits| > 3 then digits[..|digits| - 3] + "," + digits[|digits| - 3..] else digits
  }

  /** `formatNumber`: sign, a space, the integer part of the absolute amount
      with its comma, a point and the two decimals. */
  function FormatNumber(cents: int, kind: Kind): (r: string)
    ensures |r| >= 6 && r[..2] == [SignChar(kind), ' ']
    ensures r[|r| - 3] == '.' && IsDigit(r[|r| - 2]) && IsDigit(r[|r| - 1])
  {
    var a := Abs(cents);
    [SignChar(kind), ' '] + GroupOnce(Digits(a / 100)) + "." + TwoDigits(a % 100)
  }

  /** The grouped integer part holds the same digits, and a comma, if any,
      only before the last three. */
  lemma GroupOnceShape(digits: string)
    requires AllDigits(digits)
    ensures DigitsOnly(GroupOnce(digits)) == digits
    ensures |GroupOnce(digits)| >= |digits|
    ensures '.' !in GroupOnce(digits)
    ensures ',' in GroupOnce(digits) <==> |digits| > 3
    ensures forall i :: 0 <= i < |GroupOnce(digits)| && GroupOnce(digits)[i] == ',' ==>
              i == |GroupOnce(digits)| - 4
    ensures forall i :: 0 <= i < |GroupOnce(digits)| ==> IsDigit(GroupOnce(digits)[i]) || GroupOnce(digits)[i] == ','
    ensures |digits| >= 1 ==> GroupOnce(digits)[0] == digits[0]
  {
    var g := GroupOnce(digits);
    if |digits| > 3 {
      var head, tail := digits[..|digits| - 3], digits[|digits| - 3..];
      DigitsOnlyConcat(head + ",", tail);
      DigitsOnlyConcat(head, ",");
      DigitsOnlyOfDigits(head);
      DigitsOnlyOfDigits(tail);
      assert digits == head + tail;
      assert g == head + "," + tail;
      assert g[|g| - 4] == ',';
      forall i | 0 <= i < |g|
        ensures (IsDigit(g[i]) || g[i] == ',') && (g[i] == ',' ==> i == |g| - 4)
      {
        if i < |head| {
          assert g[i] == head[i];
        } else if i > |head| {
          assert g[i] == tail[i - |head| - 1];
        }
      }
    } else {
      DigitsOnlyOfDigits(digits);
    }
  }

  /** The formatted amount starts with the kind's sign and a space, ends with
      a point and exactly two digits, has no other point, and holds one comma,
      three digits before the point, exactly when the amount is 1000.00 or more. */
  lemma FormatNumberShape(cents: int, kind: Kind)
    ensures var r := FormatNumber(cents, kind);
      && |r| >= 6
      && r[0] == (if kind == Exp then '-' else '+') && r[1] == ' '
      && r[|r| - 3] == '.' && '.' !in r[..|r| - 3]
      && IsDigit(r[|r| - 2]) && IsDigit(r[|r| - 1])
      && (',' in r <==> Abs(cents) >= 100000)
      && (forall i :: 0 <= i < |r| && r[i] == ',' ==> i == |r| - 7)
      && (forall i :: 2 <= i < |r| - 3 ==> IsDigit(r[i]) || r[i] == ',')
      && IsDigit(r[2]) && (r[2] == '0' ==> r[3] == '.')
  {
    var a := Abs(cents);
    var d := Digits(a / 100);
    var g := GroupOnce(d);
    var r := FormatNumber(cents, kind);
    GroupOnceShape(d);
    DigitsLength(a / 100);
    LayoutShape(kind, g, TwoDigits(a % 100));
    assert r[2..|r| - 3] == g;
    forall i | 0 <= i < |r| && r[i] == ','
      ensures i == |r| - 7
    {
      assert g[i - 2] == ',';
    }
    if a >= 100000 {
      assert r[|r| - 7] == g[|g| - 4];
    }
    if ',' in r {
      var i :| 0 <= i < |r| && r[i] == ',';
      assert g[i - 2] == ',';
    }
    forall i | 2 <= i < |r| - 3
      ensures IsDigit(r[i]) || r[i] == ','
    {
      assert r[i] == g[i - 2];
    }
    assert r[2] == g[0] == d[0];
    if a / 100 == 0 {
      assert r[3] == '.';
    }
  }

  /** A sign, a space, an integer part without a point, a point and two
      digits: the point is the only one, three characters from the end. */
  lemma LayoutShape(kind: Kind, grouped: string, decimals: string)
    requires '.' !in grouped && |grouped| >= 1 && |decimals| == 2 && AllDigits(decimals)
    ensures var r := [SignChar(kind), ' '] + grouped + "." + decimals;
      && |r| == |grouped| + 5
      && r[0] == (if kind == Exp then '-' else '+') && r[1] == ' '
      && r[|r| - 3] == '.' && '.' !in r[..|r| - 3]
      && IsDigit(r[|r| - 2]) && IsDigit(r[|r| - 1])
      && r[2..|r| - 3] == grouped
      && ',' !in r[|r| - 3..]
  {
    var r := [SignChar(kind), ' '] + grouped + "." + decimals;
    assert r[..|r| - 3] == [SignChar(kind), ' '] + grouped;
    assert r[|r| - 3..] == "." + decimals;
  }

  /** Reading the digits of the formatted amount back gives the absolute
      amount in cents: the sign is dropped and nothing else is lost. */
  lemma FormatNumberValue(cents: int, kind: Kind)
    ensures ValueOf(DigitsOnly(FormatNumber(cents, kind))) == Abs(cents)
  {
    var d := Digits(Abs(cents) / 100);
    GroupOnceShape(d);
    LayoutValue(cents, kind, GroupOnce(d));
  }

  /** The digits of a sign, a space, an integer part `grouped` that holds the
      numeral of the whole units, a point and the two decimals denote the
      absolute amount. */
  lemma LayoutValue(cents: int, kind: Kind, grouped: string)
    requires DigitsOnly(grouped) == Digits(Abs(cents) / 100)
    ensures ValueOf(DigitsOnly([SignChar(kind), ' '] + grouped + "." + TwoDigits(Abs(cents) % 100))) == Abs(cents)
  {
    var a := Abs(cents);
    var d := Digits(a / 100);
    var t := TwoDigits(a % 100);
    var prefix := [SignChar(kind), ' '];
    DigitsOnlyConcat(prefix + grouped + ".", t);
    DigitsOnlyConcat(prefix + grouped, ".");
    DigitsOnlyConcat(prefix, grouped);
    assert DigitsOnly(prefix) == [] by {
      assert prefix[1..][1..] == [];
    }
    DigitsOnlyOfDigits(t);
    assert DigitsOnly(prefix + grouped + "." + t) == d + t;
    ValueOfAppendTwo(d, t);
    ValueOfDigits(a / 100);
  }

  /** The integer part with a comma between every group of three digits,
      counted from the right, as the comment on `formatNumber` describes. */
  function GroupThousands(digits: string): (g: string)
    ensures |digits| <= 3 ==> g == digits
    ensures |g| >= |digits|
  {
    if |digits| > 3 then GroupThousands(digits[..|digits| - 3]) + "," + digits[|digits| - 3..] else digits
  }

  /** `formatNumber` with every thousands separator in place. */
  function FormatNumberGrouped(cents: int, kind: Kind): (r: string)
    ensures |r| >= 6 && r[..2] == [SignChar(kind), ' ']
    ensures r[|r| - 3] == '.' && IsDigit(r[|r| - 2]) && IsDigit(r[|r| - 1])
  {
    var a := Abs(cents);
    [SignChar(kind), ' '] + GroupThousands(Digits(a / 100)) + "." + TwoDigits(a % 100)
  }

  /** The grouped integer part holds the same digits and no point. */
  lemma {:induction false} GroupThousandsDigits(digits: string)
    requires AllDigits(digits)
    ensures DigitsOnly(GroupThousands(digits)) == digits
    ensures '.' !in GroupThousands(digits)
    ensures forall i :: 0 <= i < |GroupThousands(digits)| ==>
              IsDigit(GroupThousands(digits)[i]) || GroupThousands(digits)[i] == ','
    ensures |digits| >= 1 ==> GroupThousands(digits)[0] == digits[0]
  {
    if |digits| > 3 {
      var head, tail := digits[..|digits| - 3], digits[|digits| - 3..];
      GroupThousandsDigits(head);
      var gh := GroupThousands(head);
      var g := gh + "," + tail;
      DigitsOnlyConcat(gh + ",", tail);
      DigitsOnlyConcat(gh, ",");
      DigitsOnlyOfDigits(tail);
      assert digits == head + tail;
      forall i | 0 <= i < |g|
        ensures IsDigit(g[i]) || g[i] == ','
      {
        if i < |gh| {
          assert g[i] == gh[i];
        } else if i > |gh| {
          assert g[i] == tail[i - |gh| - 1];
        }
      }
      assert g[0] == gh[0] == head[0];
    } else {
      DigitsOnlyOfDigits(digits);
    }
  }

  /** In the grouped integer part a character is a comma exactly when a
      multiple of four characters, counted from the end, ends with it: three
      digits follow every comma and the first group is never empty. */
  lemma {:induction false} GroupThousandsCommas(digits: string)
    requires AllDigits(digits) && |digits| >= 1
    ensures forall i :: 0 <= i < |GroupThousands(digits)| ==>
              (GroupThousands(digits)[i] == ',' <==> (|GroupThousands(digits)| - i) % 4 == 0)
    ensures |GroupThousands(digits)| % 4 != 0
  {
    var g := GroupThousands(digits);
    if |digits| > 3 {
      var head, tail := digits[..|digits| - 3], digits[|digits| - 3..];
      GroupThousandsCommas(head);
      var gh := GroupThousands(head);
      assert g == gh + "," + tail;
      assert |g| == |gh| + 4;
      forall i | 0 <= i < |g|
        ensures g[i] == ',' <==> (|g| - i) % 4 == 0
      {
        if i < |gh| {
          assert g[i] == gh[i];
          ModFour(|gh| - i);
        } else if i > |gh| {
          assert g[i] == tail[i - |gh| - 1];
        }
      }
      ModFour(|gh|);
    }
  }

  lemma ModFour(n: int)
    ensures (n + 4) % 4 == n % 4
  {
  }

  /** The corrected formatter writes the kind's sign and a space, ends with a
      point and two digits, and puts a comma exactly every four characters
      counting back from the point, never first. */
  lemma FormatNumberGroupedShape(cents: int, kind: Kind)
    ensures var r := FormatNumberGrouped(cents, kind);
      && |r| >= 6
      && r[0] == (if kind == Exp then '-' else '+') && r[1] == ' '
      && r[|r| - 3] == '.' && '.' !in r[..|r| - 3]
      && IsDigit(r[|r| - 2]) && IsDigit(r[|r| - 1])
      && r[2] != ','
      && (forall i :: 2 <= i < |r| - 3 ==> (r[i] == ',' <==> (|r| - 3 - i) % 4 == 0))
      && (forall i :: 2 <= i < |r| - 3 ==> IsDigit(r[i]) || r[i] == ',')
      && IsDigit(r[2]) && (r[2] == '0' ==> r[3] == '.')
  {
    var a := Abs(cents);
    var d := Digits(a / 100);
    var g := GroupThousands(d);
    var r := FormatNumberGrouped(cents, kind);
    GroupThousandsDigits(d);
    GroupThousandsCommas(d);
    LayoutShape(kind, g, TwoDigits(a % 100));
    assert r[2..|r| - 3] == g;
    assert r[2] == g[0];
    forall i | 2 <= i < |r| - 3
      ensures r[i] == ',' <==> (|r| - 3 - i) % 4 == 0
      ensures IsDigit(r[i]) || r[i] == ','
    {
      assert r[i] == g[i - 2];
    }
    assert g[0] == d[0];
    if a / 100 == 0 {
      assert r[3] == '.';
    }
  }

  /** Reading the digits of the corrected output back gives the absolute amount. */
  lemma FormatNumberGroupedValue(cents: int, kind: Kind)
    ensures ValueOf(DigitsOnly(FormatNumberGrouped(cents, kind))) == Abs(cents)
  {
    var d := Digits(Abs(cents) / 100);
    GroupThousandsDigits(d);
    LayoutValue(cents, kind, GroupThousands(d));
  }

  /** 1234567.00 comes out with one comma as written, and with two when
      every thousands separator is placed. */
  lemma OneCommaOnly(cents: int)
    requires cents == 123456700
    ensures FormatNumber(cents, Inc) == "+ 1234,567.00"
    ensures FormatNumberGrouped(cents, Inc) == "+ 1,234,567.00"
  {
    AsWrittenExample(cents);
    CorrectedExample(cents);
  }

  lemma AsWrittenExample(cents: int)
    requires cents == 123456700
    ensures FormatNumber(cents, Inc) == "+ 1234,567.00"
  {
    assert Abs(cents) / 100 == 1234567 && Abs(cents) % 100 == 0;
    DigitsExample();
    NoDecimals();
    GroupExamples();
    var g := GroupOnce(Digits(1234567));
    assert g == "1234,567";
    assert FormatNumber(cents, Inc) == "+ " + g + "." + "00";
  }

  lemma CorrectedExample(cents: int)
    requires cents == 123456700
    ensures FormatNumberGrouped(cents, Inc) == "+ 1,234,567.00"
  {
    assert Abs(cents) / 100 == 1234567 && Abs(cents) % 100 == 0;
    DigitsExample();
    NoDecimals();
    GroupExamples();
    var g := GroupThousands(Digits(1234567));
    assert g == "1,234,567";
    assert FormatNumberGrouped(cents, Inc) == "+ " + g + "." + "00";
  }

  lemma NoDecimals()
    ensures TwoDigits(0) == "00"
  {
    assert DigitChar(0) == '0';
  }

  lemma GroupExamples()
    ensures GroupOnce("1234567") == "1234,567"
    ensures GroupThousands("1234567") == "1,234,567"
  {
    var d := "1234567";
    assert d[..4] == "1234" && d[4..] == "567";
    assert "1234"[..1] == "1" && "1234"[1..] == "234";
    assert GroupThousands("1") == "1";
    assert GroupThousands("1234") == "1,234";
  }

  lemma DigitsExample()
    ensures Digits(1234567) == "1234567"
  {
    assert DigitChar(1) == '1' && DigitChar(2) == '2' && DigitChar(3) == '3' && DigitChar(4) == '4';
    assert DigitChar(5) == '5' && DigitChar(6) == '6' && DigitChar(7) == '7';
    assert Digits(1) == "1";
    assert Digits(12) == Digits(1) + "2";
    assert Digits(123) == Digits(12) + "3";
    assert Digits(1234) == Digits(123) + "4";
    assert Digits(12345) == Digits(1234) + "5";
    assert Digits(123456) == Digits(12345) + "6";
    assert Digits(1234567) == Digits(123456) + "7";
  }

  /** The budget label of `displayBudget`: "0.00" for a zero budget, otherwise
      the formatted amount, signed '+' when positive and '-' when negative. */
  function BudgetLabel(budget: int): (r: string)
    ensures |r| >= 4 && r[|r| - 3] == '.'
    ensures budget != 0 ==> r[0] == (if budget > 0 then '+' else '-')
  {
    if budget == 0 then "0.00" else FormatNumber(budget, if budget > 0 then Inc else Exp)
  }

  lemma BudgetLabelFacts(budget: int)
    ensures BudgetLabel(budget) == "0.00" <==> budget == 0
    ensures budget > 0 ==> BudgetLabel(budget)[0] == '+'
    ensures budget < 0 ==> BudgetLabel(budget)[0] == '-'
    ensures ValueOf(DigitsOnly(BudgetLabel(budget))) == Abs(budget)
  {
    if budget != 0 {
      var kind := if budget > 0 then Inc else Exp;
      FormatNumberValue(budget, kind);
      assert BudgetLabel(budget)[0] != '0';
    } else {
      ZeroLabelValue();
    }
  }

  /** The budget label as it reads with every thousands separator in place. */
  function BudgetLabelGrouped(budget: int): (r: string)
    ensures |r| >= 4 && r[|r| - 3] == '.'
    ensures budget != 0 ==> r[0] == (if budget > 0 then '+' else '-')
  {
    if budget == 0 then "0.00"
    else
      var kind := if budget > 0 then Inc else Exp;
      FormatNumberGroupedShape(budget, kind);
      FormatNumberGrouped(budget, kind)
  }

  lemma BudgetLabelGroupedFacts(budget: int)
    ensures BudgetLabelGrouped(budget) == "0.00" <==> budget == 0
    ensures ValueOf(DigitsOnly(BudgetLabelGrouped(budget))) == Abs(budget)
  {
    if budget != 0 {
      FormatNumberGroupedValue(budget, if budget > 0 then Inc else Exp);
      assert BudgetLabelGrouped(budget)[0] != '0';
    } else {
      ZeroLabelValue();
    }
  }

  /** The digits of "0.00" denote zero. */
  lemma ZeroLabelValue()
    ensures ValueOf(DigitsOnly("0.00")) == 0
  {
    assert DigitsOnly("0.00") == "000" by {
      assert "0.00"[1..] == ".00";
      assert ".00"[1..] == "00";
      DigitsOnlyOfDigits("00");
    }
    assert "000"[..2] == "00" && "00"[..1] == "0" && "0"[..0] == [];
  }

  /** The percentage label of `displayBudget` and `displayPercentages`: the
      number and '%' when positive, a lone '-' otherwise (unknown or zero). */
  function PercentageLabel(p: int): (r: string)
    ensures r == "-" <==> p <= 0
    ensures p > 0 ==> |r| >= 2 && r[|r| - 1] == '%' && AllDigits(r[..|r| - 1])
  {
    if p > 0 then Digits(p) + "%" else "-"
  }

  lemma PercentageLabelFacts(p: int)
    ensures PercentageLabel(p) == "-" <==> p <= 0
    ensures p > 0 ==> var r := PercentageLabel(p);
      |r| >= 2 && r[|r| - 1] == '%' && AllDigits(r[..|r| - 1]) && ValueOf(r[..|r| - 1]) == p
  {
    if p > 0 {
      var r := PercentageLabel(p);
      assert r[..|r| - 1] == Digits(p);
      ValueOfDigits(p);
    }
  }
}
