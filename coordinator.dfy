/** The application controller's two handlers, without the page: adding an
    entry from the form and deleting the row that was clicked. Each one
    updates the ledger and then recomputes the budget and every expense
    percentage, so the figures always agree with the entries. */
module Coordinator {
  import opened Options
  import opened Ledger
  import opened RowIds

  /** `ctrlAddItem` after the form has been read: an entry is added only when
      the description is not empty and the amount is positive. */
  method AddEntry(ledger: BudgetController, kind: Kind, description: string, value: int)
    returns (added: Option<Item>)
    requires ledger.Valid() && ledger.Consistent()
    modifies ledger
    ensures ledger.Valid() && ledger.Consistent()
    ensures added.Some? <==> description != "" && value > 0
    ensures added.Some? ==> added.value == NewItem(kind, NextId(old(ledger.Items(kind))), description, value)
    ensures added.Some? ==> ledger.inc == (if kind == Inc then old(ledger.inc) + [added.value] else old(ledger.inc))
    ensures added.Some? ==>
              ledger.exp == WithPercentages(if kind == Exp then old(ledger.exp) + [added.value] else old(ledger.exp), ledger.totalInc)
    ensures added.None? ==> unchanged(ledger)
  {
    if description != "" && value > 0 {
      var item := ledger.AddItem(kind, description, value);
      Refresh(ledger);
      added := Some(item);
    } else {
      added := None;
    }
  }

  /** `ctrlDeleteItem` once the clicked row's identifier is known: an empty
      identifier does nothing, one that names no kind does nothing, one whose
      id `parseInt` cannot read deletes nothing and leaves every figure as it
      was, and otherwise the entry with that id, if any, is deleted and the
      figures are recomputed. */
  method DeleteRow(ledger: BudgetController, rowId: string)
    requires ledger.Valid() && ledger.Consistent()
    modifies ledger
    ensures ledger.Valid() && ledger.Consistent()
    ensures rowId == "" || ParseRowId(rowId).None? ==> unchanged(ledger)
    ensures forall kind, id :: ParseRowId(rowId) == Some(RowRef(kind, Some(id))) ==>
              && ledger.inc == (if kind == Inc then Removed(old(ledger.inc), id) else old(ledger.inc))
              && ledger.exp == WithPercentages(if kind == Exp then Removed(old(ledger.exp), id) else old(ledger.exp), ledger.totalInc)
    ensures forall kind :: ParseRowId(rowId) == Some(RowRef(kind, None)) ==>
              && ledger.inc == old(ledger.inc) && ledger.exp == old(ledger.exp)
              && ledger.GetBudget() == old(ledger.GetBudget())
  {
    if rowId != "" {
      var parsed := ParseRowId(rowId);
      if parsed.Some? {
        var kind := parsed.value.kind;
        if parsed.value.id.Some? {
          ledger.DeleteItem(kind, parsed.value.id.value);
        }
        Refresh(ledger);
      }
    }
  }

  /** `updateBudget` followed by `updatePercentages`, without the display. */
  method Refresh(ledger: BudgetController)
    requires ledger.Valid()
    modifies ledger
    ensures ledger.Valid() && ledger.Consistent()
    ensures ledger.inc == old(ledger.inc)
    ensures ledger.exp == WithPercentages(old(ledger.exp), ledger.totalInc)
  {
    ledger.CalculateBudget();
    ledger.CalculatePercentages();
    SumWithPercentages(old(ledger.exp), ledger.totalInc);
    WithPercentagesIdempotent(old(ledger.exp), ledger.totalInc);
  }
}
