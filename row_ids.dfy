/** The identifiers of the rendered rows, "inc-<id>" and "exp-<id>", and how
    the delete handler reads them back with `split('-')` and `parseInt`. */
module RowIds {
  import opened Options
  import opened Decimal
  import opened Ledger

  /** The tag a kind is written with. */
  function Tag(kind: Kind): string {
    if kind == Inc then "inc" else "exp"
  }

  /** The row identifier `addListItem` gives an entry of the given kind and id. */
  function RowId(kind: Kind, id: nat): (s: string)
    ensures |s| >= 5 && s[..4] == Tag(kind) + "-"
    ensures AllDigits(s[4..]) && s[4..] == Digits(id)
  {
    Tag(kind) + "-" + Digits(id)
  }

  /** `String.prototype.split` on one separator character: the pieces between
      separators, at least one, none holding the separator. */
  function Split(s: string, sep: char): (parts: seq<string>)
    ensures |parts| >= 1
    ensures forall i :: 0 <= i < |parts| ==> sep !in parts[i]
  {
    if s == [] then [[]]
    else
      var rest := Split(s[1..], sep);
      if s[0] == sep then [[]] + rest else [[s[0]] + rest[0]] + rest[1..]
  }

  /** The pieces put back together with the separator between them. */
  function Join(parts: seq<string>, sep: char): string
    requires |parts| >= 1
  {
    if |parts| == 1 then parts[0] else parts[0] + [sep] + Join(parts[1..], sep)
  }

  /** Splitting loses nothing: joining the pieces gives the string back. */
  lemma {:induction false} JoinSplit(s: string, sep: char)
    ensures Join(Split(s, sep), sep) == s
  {
    if s != [] {
      var rest := Split(s[1..], sep);
      JoinSplit(s[1..], sep);
      if s[0] == sep {
        assert ([[]] + rest)[1..] == rest;
      } else {
        var parts := [[s[0]] + rest[0]] + rest[1..];
        if |rest| > 1 {
          assert parts[1..] == rest[1..];
          assert Join(rest, sep) == rest[0] + [sep] + Join(rest[1..], sep);
        }
      }
    }
  }

  /** A string without the separator splits into itself alone. */
  lemma {:induction false} SplitNoSeparator(a: string, sep: char)
    requires sep !in a
    ensures Split(a, sep) == [a]
  {
    if a != [] {
      SplitNoSeparator(a[1..], sep);
      assert [a[0]] + a[1..] == a;
    }
  }

  /** A prefix without the separator followed by the separator is the first piece. */
  lemma {:induction false} SplitAtSeparator(a: string, b: string, sep: char)
    requires sep !in a
    ensures Split(a + [sep] + b, sep) == [a] + Split(b, sep)
  {
    if a == [] {
      assert a + [sep] + b == [sep] + b;
      assert ([sep] + b)[1..] == b;
    } else {
      SplitAtSeparator(a[1..], b, sep);
      assert (a + [sep] + b)[1..] == a[1..] + [sep] + b;
      assert [a[0]] + a[1..] == a;
    }
  }

  /** The longest prefix of `s` made of digits. */
  function DigitPrefix(s: string): (d: string)
    ensures AllDigits(d) && |d| <= |s| && d == s[..|d|]
    ensures |d| < |s| ==> !IsDigit(s[|d|])
  {
    if s != [] && IsDigit(s[0]) then [s[0]] + DigitPrefix(s[1..]) else []
  }

  /** `parseInt` with no radix: an optional sign and the digits that follow,
      up to the first other character; None where JavaScript gives NaN. */
  function ParseInt(s: string): (r: Option<int>)
    ensures s == [] ==> r.None?
    ensures |s| > 0 && IsDigit(s[0]) ==> r.Some? && r.value >= 0
    ensures |s| > 0 && !IsDigit(s[0]) && s[0] != '+' && s[0] != '-' ==> r.None?
  {
    if |s| > 0 && (s[0] == '+' || s[0] == '-') then
      var d := DigitPrefix(s[1..]);
      var magnitude: int := ValueOf(d);
      if d == [] then None else Some(if s[0] == '-' then -magnitude else magnitude)
    else
      var d := DigitPrefix(s);
      if d == [] then None else Some(ValueOf(d))
  }

  /** A numeral parses back to the number it denotes. */
  lemma ParseIntDigits(n: nat)
    ensures ParseInt(Digits(n)) == Some(n)
  {
    var s := Digits(n);
    assert s[0] != '+' && s[0] != '-';
    DigitPrefixOfDigits(s);
    ValueOfDigits(n);
  }

  lemma {:induction false} DigitPrefixOfDigits(s: string)
    requires AllDigits(s)
    ensures DigitPrefix(s) == s
  {
    if s != [] {
      DigitPrefixOfDigits(s[1..]);
    }
  }

  /** What the delete handler extracts from a row identifier: the kind, and the
      id `parseInt` read (None for NaN). */
  datatype RowRef = RowRef(kind: Kind, id: Option<int>)

  /** The delete handler's reading of a row identifier: the first piece must be
      a kind tag (any other tag makes `deleteItem` throw before it changes
      anything, so it is None here), the second piece is parsed as the id. */
  function ParseRowId(s: string): (r: Option<RowRef>)
    ensures r.Some? ==> Split(s, '-')[0] == Tag(r.value.kind)
    ensures r.Some? && |Split(s, '-')| == 1 ==> r.value.id.None?
  {
    var parts := Split(s, '-');
    var kind := if parts[0] == "inc" then Some(Inc) else if parts[0] == "exp" then Some(Exp) else None;
    var id := if |parts| > 1 then ParseInt(parts[1]) else None;
    if kind.None? then None else Some(RowRef(kind.value, id))
  }

  /** Reading back the identifier of a row gives the kind and id it was built from. */
  lemma ParseRowIdRoundTrip(kind: Kind, id: nat)
    ensures ParseRowId(RowId(kind, id)) == Some(RowRef(kind, Some(id)))
  {
    var d := Digits(id);
    assert '-' !in d by {
      forall i | 0 <= i < |d| ensures d[i] != '-' {
        assert IsDigit(d[i]);
      }
    }
    assert '-' !in Tag(kind);
    SplitAtSeparator(Tag(kind), d, '-');
    SplitNoSeparator(d, '-');
    assert Split(RowId(kind, id), '-') == [Tag(kind), d];
    ParseIntDigits(id);
  }

  /** Different entries never share a row identifier. */
  lemma RowIdInjective(k1: Kind, id1: nat, k2: Kind, id2: nat)
    ensures RowId(k1, id1) == RowId(k2, id2) ==> k1 == k2 && id1 == id2
  {
    var s1, s2 := RowId(k1, id1), RowId(k2, id2);
    if s1 == s2 {
      assert s1[0] == (if k1 == Inc then 'i' else 'e');
      assert s2[0] == (if k2 == Inc then 'i' else 'e');
      DigitsInjective(id1, id2);
    }
  }

  /** A string whose first piece is not a kind tag reads as no row. */
  lemma ParseRowIdTags(s: string)
    ensures ParseRowId(s).Some? <==> Split(s, '-')[0] in {"inc", "exp"}
    ensures ParseRowId("") == None
  {
    assert Split("", '-') == [""];
  }
}
