/** The budget controller: two lists of entries, income and expense, the two
    totals, the net budget and the share of income that is spent.  Amounts are
    exact integers (cents); the controller is handed only positive amounts. */
module Ledger {

  /** The two kinds of entry, written 'inc' and 'exp' by the application. */
  datatype Kind = Inc | Exp

  function Other(kind: Kind): Kind {
    if kind == Inc then Exp else Inc
  }

  /** One entry. Only an expense tracks its percentage of total income. */
  datatype Item =
    | Income(id: nat, description: string, value: int)
    | Expense(id: nat, description: string, value: int, percentage: int)

  /** The percentage that cannot be computed because there is no income yet. */
  const Unknown := -1

  /** A read-only copy of the aggregate figures. */
  datatype Snapshot = Snapshot(budget: int, totalInc: int, totalExp: int, percentage: int)

  /** A fresh entry of the given kind; an expense starts with an unknown percentage. */
  function NewItem(kind: Kind, id: nat, description: string, value: int): (item: Item)
    ensures item.Expense? <==> kind == Exp
    ensures item.id == id && item.description == description && item.value == value
    ensures item.Expense? ==> item.percentage == Unknown
  {
    if kind == Exp then Expense(id, description, value, Unknown) else Income(id, description, value)
  }

  predicate OfKind(items: seq<Item>, kind: Kind) {
    forall i :: 0 <= i < |items| ==> (items[i].Expense? <==> kind == Exp)
  }

  /** Ids grow strictly along the list, so no two entries share an id. */
  predicate IdsIncreasing(items: seq<Item>) {
    forall i, j :: 0 <= i < j < |items| ==> items[i].id < items[j].id
  }

  predicate AllPositive(items: seq<Item>) {
    forall i :: 0 <= i < |items| ==> items[i].value > 0
  }

  predicate WellFormed(items: seq<Item>, kind: Kind) {
    OfKind(items, kind) && IdsIncreasing(items) && AllPositive(items)
  }

  function Ids(items: seq<Item>): (ids: seq<nat>)
    ensures |ids| == |items|
    ensures forall i :: 0 <= i < |items| ==> ids[i] == items[i].id
  {
    seq(|items|, i requires 0 <= i < |items| => items[i].id)
  }

  /** The id the controller gives the next entry of a list: the id of the
      list's last entry plus one, or 0 for an empty list. */
  function NextId(items: seq<Item>): (n: nat)
    ensures items == [] ==> n == 0
    ensures IdsIncreasing(items) ==> forall i :: 0 <= i < |items| ==> items[i].id < n
  {
    if |items| > 0 then items[|items| - 1].id + 1 else 0
  }

  /** The next id is one more than the largest id in the list. */
  lemma NextIdIsMaxPlusOne(items: seq<Item>)
    requires IdsIncreasing(items)
    ensures forall i :: 0 <= i < |items| ==> items[i].id < NextId(items)
    ensures |items| > 0 ==> exists i :: 0 <= i < |items| && items[i].id + 1 == NextId(items)
  {
    if |items| > 0 {
      assert items[|items| - 1].id + 1 == NextId(items);
    }
  }

  /** Appending an entry with the next id keeps the list well formed. */
  lemma AppendKeepsWellFormed(items: seq<Item>, kind: Kind, item: Item)
    requires WellFormed(items, kind)
    requires item.id == NextId(items) && item.value > 0 && (item.Expense? <==> kind == Exp)
    ensures WellFormed(items + [item], kind)
  {
    NextIdIsMaxPlusOne(items);
  }

  /** The first position of `id` in `ids`, or -1 when it does not occur
      (JavaScript's Array.prototype.indexOf). */
  function IndexOf(ids: seq<int>, id: int): (i: int)
    ensures -1 <= i < |ids|
    ensures i == -1 <==> id !in ids
    ensures i >= 0 ==> ids[i] == id && id !in ids[..i]
  {
    if ids == [] then -1
    else if ids[0] == id then 0
    else
      var j := IndexOf(ids[1..], id);
      assert ids == [ids[0]] + ids[1..];
      if j == -1 then -1
      else
        assert ids[..j + 1] == [ids[0]] + ids[1..][..j];
        j + 1
  }

  /** The list after the controller deletes the entry with `id`: the entry at
      the first position holding that id is spliced out; an absent id changes nothing. */
  function Removed(items: seq<Item>, id: int): (r: seq<Item>)
    ensures r == items <==> id !in Ids(items)
    ensures id in Ids(items) ==> |r| == |items| - 1
    ensures multiset(r) <= multiset(items)
  {
    var index := IndexOf(Ids(items), id);
    if index == -1 then items
    else
      assert items == items[..index] + [items[index]] + items[index + 1..];
      items[..index] + items[index + 1..]
  }

  /** Deleting removes exactly the one entry carrying `id`, keeps the order
      of the rest, and leaves no entry with that id; an absent id leaves the
      list as it was. */
  lemma RemovedSpec(items: seq<Item>, id: int)
    requires IdsIncreasing(items)
    ensures (forall k :: 0 <= k < |items| ==> items[k].id != id) ==> Removed(items, id) == items
    ensures forall k :: 0 <= k < |items| && items[k].id == id ==>
              Removed(items, id) == items[..k] + items[k + 1..]
    ensures forall k :: 0 <= k < |Removed(items, id)| ==> Removed(items, id)[k].id != id
  {
    var ids := Ids(items);
    var index := IndexOf(ids, id);
    if index == -1 {
      assert forall k :: 0 <= k < |items| ==> items[k].id != id by {
        forall k | 0 <= k < |items| ensures items[k].id != id {
          assert ids[k] == items[k].id;
        }
      }
    } else {
      forall k | 0 <= k < |items| && items[k].id == id
        ensures index == k
      {
        assert items[index].id == id;
      }
    }
  }

  /** Deleting keeps a list well formed. */
  lemma RemovedKeepsWellFormed(items: seq<Item>, kind: Kind, id: int)
    requires WellFormed(items, kind)
    ensures WellFormed(Removed(items, id), kind)
  {
    var index := IndexOf(Ids(items), id);
    if index != -1 {
      SpliceKeepsWellFormed(items, kind, index);
    }
  }

  lemma SpliceKeepsWellFormed(items: seq<Item>, kind: Kind, index: nat)
    requires WellFormed(items, kind) && index < |items|
    ensures WellFormed(items[..index] + items[index + 1..], kind)
  {
    var r := items[..index] + items[index + 1..];
    forall k | 0 <= k < |r|
      ensures r[k] == items[Shifted(k, index)]
    {
    }
    forall k | 0 <= k < |r|
      ensures (r[k].Expense? <==> kind == Exp) && r[k].value > 0
    {
      assert r[k] == items[Shifted(k, index)];
    }
    forall i, j | 0 <= i < j < |r|
      ensures r[i].id < r[j].id
    {
      assert r[i] == items[Shifted(i, index)] && r[j] == items[Shifted(j, index)];
      assert Shifted(i, index) < Shifted(j, index);
    }
  }

  /** The position in the original list of position `k` after splicing out `index`. */
  function Shifted(k: nat, index: nat): nat {
    if k < index then k else k + 1
  }

  /** Deleting the id that was just handed out restores the list, and with it
      the same id is handed out again by the next addition. */
  lemma AddThenDelete(items: seq<Item>, item: Item)
    requires IdsIncreasing(items) && item.id == NextId(items)
    ensures Removed(items + [item], item.id) == items
    ensures NextId(Removed(items + [item], item.id)) == item.id
  {
    NextIdIsMaxPlusOne(items);
    var all := items + [item];
    assert IdsIncreasing(all);
    RemovedSpec(all, item.id);
    assert all[|items|].id == item.id;
    assert all[..|items|] + all[|items| + 1..] == items;
  }

  /** The sum of the amounts, accumulated front to back as the controller does. */
  function Sum(items: seq<Item>): int {
    if items == [] then 0 else Sum(items[..|items| - 1]) + items[|items| - 1].value
  }

  /** Splicing out one entry lowers the sum by exactly its amount. */
  lemma {:induction false} SumSplice(items: seq<Item>, k: nat)
    requires k < |items|
    ensures Sum(items[..k] + items[k + 1..]) == Sum(items) - items[k].value
  {
    var n := |items| - 1;
    if k == n {
      assert items[..k] + items[k + 1..] == items[..n];
    } else {
      var front := items[..n];
      SumSplice(front, k);
      var r := items[..k] + items[k + 1..];
      assert r[..|r| - 1] == front[..k] + front[k + 1..];
      assert r[|r| - 1] == items[n];
    }
  }

  /** Deleting an entry lowers the sum by its amount; deleting an absent id
      leaves the sum as it was. */
  lemma SumRemoved(items: seq<Item>, id: int)
    requires IdsIncreasing(items)
    ensures (forall k :: 0 <= k < |items| ==> items[k].id != id) ==> Sum(Removed(items, id)) == Sum(items)
    ensures forall k :: 0 <= k < |items| && items[k].id == id ==>
              Sum(Removed(items, id)) == Sum(items) - items[k].value
  {
    RemovedSpec(items, id);
    forall k | 0 <= k < |items| && items[k].id == id
      ensures Sum(Removed(items, id)) == Sum(items) - items[k].value
    {
      SumSplice(items, k);
    }
  }

  /** With positive amounts the sum is never negative, and it is zero exactly
      when the list is empty. */
  lemma {:induction false} SumPositive(items: seq<Item>)
    requires AllPositive(items)
    ensures Sum(items) >= 0
    ensures Sum(items) == 0 <==> items == []
  {
    if items != [] {
      SumPositive(items[..|items| - 1]);
    }
  }

  /** `Math.round(part / whole * 100)` when `whole > 0`, -1 otherwise. The
      result is the integer nearest to 100 * part / whole, a half rounded up. */
  function PercentOf(part: int, whole: int): (r: int)
    ensures whole <= 0 ==> r == Unknown
    ensures whole > 0 ==> 2 * whole * r - whole <= 200 * part < 2 * whole * r + whole
  {
    if whole > 0 then (200 * part + whole) / (2 * whole) else Unknown
  }

  /** A non-negative share of a positive whole is a known percentage, at most
      100 while the share does not exceed the whole. */
  lemma PercentBounds(part: int, whole: int)
    requires 0 <= part && whole > 0
    ensures 0 <= PercentOf(part, whole)
    ensures part <= whole ==> PercentOf(part, whole) <= 100
  {
    var r := PercentOf(part, whole);
    MulNonNegative(whole, if r < 0 then -r else 0);
    MulNonNegative(whole, if part <= whole && r > 100 then r - 101 else 0);
  }

  lemma MulNonNegative(a: int, b: int)
    requires a >= 0 && b >= 0
    ensures a * b >= 0
  {
  }

  /** The aggregate figures of two lists: both totals, income minus expenses,
      and the share of income spent. */
  function SnapshotOf(inc: seq<Item>, exp: seq<Item>): (s: Snapshot)
    ensures s.budget == s.totalInc - s.totalExp
    ensures s.percentage == PercentOf(s.totalExp, s.totalInc)
    ensures s.totalInc == Sum(inc) && s.totalExp == Sum(exp)
  {
    Snapshot(Sum(inc) - Sum(exp), Sum(inc), Sum(exp), PercentOf(Sum(exp), Sum(inc)))
  }

  /** With no income the spent share is unknown, and only then; with no entries
      at all every figure is zero; while expenses do not exceed income the
      share is a percentage between 0 and 100. */
  lemma SnapshotFacts(inc: seq<Item>, exp: seq<Item>)
    requires AllPositive(inc) && AllPositive(exp)
    ensures SnapshotOf(inc, exp).percentage == Unknown <==> inc == []
    ensures inc == [] && exp == [] ==> SnapshotOf(inc, exp) == Snapshot(0, 0, 0, Unknown)
    ensures SnapshotOf(inc, exp).totalInc >= 0 && SnapshotOf(inc, exp).totalExp >= 0
    ensures inc != [] && Sum(exp) <= Sum(inc) ==> 0 <= SnapshotOf(inc, exp).percentage <= 100
  {
    SumPositive(inc);
    SumPositive(exp);
    if inc != [] {
      PercentBounds(Sum(exp), Sum(inc));
    }
  }

  /** `Expense.calcPercentage`: only the expense's percentage changes. */
  function CalcPercentage(item: Item, totalIncome: int): (r: Item)
    requires item.Expense?
    ensures r.Expense? && r.id == item.id && r.description == item.description && r.value == item.value
    ensures r.percentage == PercentOf(item.value, totalIncome)
  {
    item.(percentage := PercentOf(item.value, totalIncome))
  }

  /** The expense list after every expense has recomputed its percentage. */
  function WithPercentages(exp: seq<Item>, totalIncome: int): (r: seq<Item>)
    requires OfKind(exp, Exp)
    ensures |r| == |exp| && OfKind(r, Exp)
    ensures forall i :: 0 <= i < |exp| ==>
              r[i].id == exp[i].id && r[i].description == exp[i].description && r[i].value == exp[i].value
  {
    seq(|exp|, i requires 0 <= i < |exp| => CalcPercentage(exp[i], totalIncome))
  }

  /** The percentages of an expense list, in list order. */
  function PercentagesOf(exp: seq<Item>): (ps: seq<int>)
    requires OfKind(exp, Exp)
    ensures |ps| == |exp|
    ensures forall i :: 0 <= i < |exp| ==> ps[i] == exp[i].percentage
  {
    seq(|exp|, i requires 0 <= i < |exp| => exp[i].percentage)
  }

  /** After recomputing, the percentages are one per expense, in order, each
      the expense's rounded share of income, or all unknown without income. */
  lemma PercentagesAfterRecalculation(exp: seq<Item>, totalIncome: int)
    requires WellFormed(exp, Exp)
    ensures WellFormed(WithPercentages(exp, totalIncome), Exp)
    ensures |PercentagesOf(WithPercentages(exp, totalIncome))| == |exp|
    ensures forall i :: 0 <= i < |exp| ==>
              PercentagesOf(WithPercentages(exp, totalIncome))[i] == PercentOf(exp[i].value, totalIncome)
    ensures totalIncome <= 0 ==> forall i :: 0 <= i < |exp| ==>
              PercentagesOf(WithPercentages(exp, totalIncome))[i] == Unknown
    ensures totalIncome > 0 ==> forall i :: 0 <= i < |exp| ==>
              PercentagesOf(WithPercentages(exp, totalIncome))[i] >= 0
  {
    var r := WithPercentages(exp, totalIncome);
    assert forall i :: 0 <= i < |exp| ==> r[i].id == exp[i].id && r[i].value == exp[i].value && r[i].Expense?;
    if totalIncome > 0 {
      forall i | 0 <= i < |exp| ensures PercentOf(exp[i].value, totalIncome) >= 0 {
        PercentBounds(exp[i].value, totalIncome);
      }
    }
  }

  /** Recomputing percentages changes no amount, so no total. */
  lemma {:induction false} SumWithPercentages(exp: seq<Item>, totalIncome: int)
    requires OfKind(exp, Exp)
    ensures Sum(WithPercentages(exp, totalIncome)) == Sum(exp)
  {
    if exp != [] {
      var front := exp[..|exp| - 1];
      var r := WithPercentages(exp, totalIncome);
      assert r[..|r| - 1] == WithPercentages(front, totalIncome);
      SumWithPercentages(front, totalIncome);
    }
  }

  /** Recomputing twice against the same income gives what recomputing once does. */
  lemma WithPercentagesIdempotent(exp: seq<Item>, totalIncome: int)
    requires OfKind(exp, Exp)
    ensures OfKind(WithPercentages(exp, totalIncome), Exp)
    ensures WithPercentages(WithPercentages(exp, totalIncome), totalIncome) == WithPercentages(exp, totalIncome)
  {
  }

  /** The controller's private `data` record and its public operations. */
  class BudgetController {
    var inc: seq<Item>
    var exp: seq<Item>
    var totalInc: int
    var totalExp: int
    var budget: int
    var percentage: int

    ghost predicate Valid()
      reads this
    {
      WellFormed(inc, Inc) && WellFormed(exp, Exp)
    }

    /** The aggregates and every expense's percentage agree with the lists,
        as they do after each update cycle of the application. */
    ghost predicate Consistent()
      reads this
    {
      Valid() && GetBudget() == SnapshotOf(inc, exp) && exp == WithPercentages(exp, totalInc)
    }

    function Items(kind: Kind): seq<Item>
      reads this
    {
      if kind == Inc then inc else exp
    }

    function Total(kind: Kind): int
      reads this
    {
      if kind == Inc then totalInc else totalExp
    }

    /** The initial `data`: no entries, zero totals and budget, unknown share. */
    constructor ()
      ensures Valid() && Consistent()
      ensures inc == [] && exp == []
      ensures GetBudget() == Snapshot(0, 0, 0, Unknown)
    {
      inc, exp := [], [];
      totalInc, totalExp := 0, 0;
      budget, percentage := 0, Unknown;
    }

    /** `addItemm`: append an entry whose id follows the last one of its list. */
    method AddItem(kind: Kind, description: string, value: int) returns (item: Item)
      requires Valid() && value > 0
      modifies this`inc, this`exp
      ensures Valid()
      ensures item == NewItem(kind, NextId(old(Items(kind))), description, value)
      ensures Items(kind) == old(Items(kind)) + [item]
      ensures Items(Other(kind)) == old(Items(Other(kind)))
    {
      var items := Items(kind);
      var id := if |items| > 0 then items[|items| - 1].id + 1 else 0;
      if kind == Exp {
        item := Expense(id, description, value, Unknown);
        AppendKeepsWellFormed(exp, Exp, item);
        exp := exp + [item];
      } else {
        item := Income(id, description, value);
        AppendKeepsWellFormed(inc, Inc, item);
        inc := inc + [item];
      }
    }

    /** `deleteItem`: splice out the entry found by `indexOf` on the ids, if any. */
    method DeleteItem(kind: Kind, id: int)
      requires Valid()
      modifies this`inc, this`exp
      ensures Valid()
      ensures Items(kind) == Removed(old(Items(kind)), id)
      ensures Items(Other(kind)) == old(Items(Other(kind)))
    {
      var items := Items(kind);
      var index := IndexOf(Ids(items), id);
      RemovedKeepsWellFormed(items, kind, id);
      if index != -1 {
        var rest := items[..index] + items[index + 1..];
        assert rest == Removed(items, id);
        if kind == Exp {
          exp := rest;
        } else {
          inc := rest;
        }
      }
    }

    /** `calculateTotal`: sum the amounts of one list into its total. */
    method CalculateTotal(kind: Kind)
      modifies this`totalInc, this`totalExp
      ensures Total(kind) == Sum(Items(kind))
      ensures Total(Other(kind)) == old(Total(Other(kind)))
    {
      var items := Items(kind);
      var sum := 0;
      for i := 0 to |items|
        invariant sum == Sum(items[..i])
      {
        assert items[..i + 1][..i] == items[..i];
        sum := sum + items[i].value;
      }
      assert items[..|items|] == items;
      if kind == Exp {
        totalExp := sum;
      } else {
        totalInc := sum;
      }
    }

    /** `calculateBudget`: recompute both totals, the budget and the spent share. */
    method CalculateBudget()
      modifies this`totalInc, this`totalExp, this`budget, this`percentage
      ensures GetBudget() == SnapshotOf(inc, exp)
    {
      CalculateTotal(Exp);
      CalculateTotal(Inc);
      budget := totalInc - totalExp;
      percentage := PercentOf(totalExp, totalInc);
    }

    /** `calculatePercentages`: every expense recomputes its share of the
        current income total. */
    method CalculatePercentages()
      requires Valid()
      modifies this`exp
      ensures Valid()
      ensures exp == WithPercentages(old(exp), totalInc)
    {
      var i := 0;
      while i < |exp|
        invariant 0 <= i <= |exp| == |old(exp)|
        invariant forall j :: 0 <= j < i ==> exp[j] == CalcPercentage(old(exp)[j], totalInc)
        invariant forall j :: i <= j < |exp| ==> exp[j] == old(exp)[j]
      {
        exp := exp[i := CalcPercentage(exp[i], totalInc)];
        i := i + 1;
      }
      PercentagesAfterRecalculation(old(exp), totalInc);
    }

    /** `getPercentages`: one percentage per expense, in list order. */
    function GetPercentages(): (ps: seq<int>)
      reads this
      requires Valid()
      ensures |ps| == |exp|
      ensures forall i :: 0 <= i < |exp| ==> ps[i] == exp[i].percentage
    {
      PercentagesOf(exp)
    }

    /** `getBudget`. */
    function GetBudget(): Snapshot
      reads this
    {
      Snapshot(budget, totalInc, totalExp, percentage)
    }
  }
}
