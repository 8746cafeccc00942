# Budgety: the budget controller in Dafny

A model of the logic of the Budgety budgeting page (`js/app.js`). The model covers:

- **The budget controller** (`Ledger`). Its private `data` record becomes the class
  `Ledger.BudgetController`. The class holds the income and expense lists, both totals, the
  net budget and the share of income spent. Each public operation is a method or a function:
  `addItemm`, `deleteItem`, `calculateBudget`, `calculatePercentages`, `getPercentages` and
  `getBudget`, plus the private `calculateTotal`. Each method is proved against functions on
  the lists: `NextId`, `Removed`, `Sum`, `PercentOf`, `SnapshotOf` and `WithPercentages`.
  Lemmas then prove what the application relies on about those functions.
- **`formatNumber`** (`Format`) on integer cents, plus the text choices of `displayBudget`
  and `displayPercentages`.
- **Row identifiers** (`RowIds`). Rows are written as `inc-<id>` / `exp-<id>`. The delete
  handler reads them back with `split('-')` and `parseInt`.
- **The two handlers** (`Coordinator`), `ctrlAddItem` and `ctrlDeleteItem`, with the page left out.
  Both keep the figures consistent with the entries.

Amounts are exact integers, read as cents. The controller receives only positive amounts,
because `ctrlAddItem` filters them (js/app.js:411). `Math.round(x)` is `floor(x + 1/2)`, which is
exact on rationals. So `PercentOf(part, whole)` is `(200*part + whole) div (2*whole)` when
`whole > 0`, and -1 (unknown) otherwise.

Three points where the code behaves differently from what one might expect of a budget
page; the model follows the code:

- **Ids are not a counter.** A deleted id can come back. The code gives the last id of
  the list + 1 (js/app.js:82), so deleting the last entry hands its id out again:
  `Ledger.AddThenDelete`.
- **Halves round up.** `Math.round` rounds a half up, not away from zero. The two agree for
  the non-negative shares that arise here.
- **The '-' label is not only for an unknown share.** The code shows it for every
  percentage that is not positive, 0% included (js/app.js:287, 304).

## Model

| member | source | states |
|---|---|---|
| `Decimal.Digits` | js/app.js:239 | the id written into a row is a non-empty string of digits without a leading zero |
| `Decimal.ValueOfDigits` | js/app.js:440 | reading a numeral back gives the number it was written from |
| `Decimal.DigitsInjective` | js/app.js:239 | different ids are written as different numerals |
| `Decimal.DigitsLength` | js/app.js:198 | an integer part has more than three digits exactly when it is at least 1000 |
| `Ledger.NewItem` | js/app.js:88-92 | an `Expense` exactly for the expense kind, an `Income` otherwise, carrying the given id, description and amount; an expense starts with the unknown percentage -1 (js/app.js:16) |
| `Ledger.NextId` | js/app.js:81-85 | 0 for an empty list; in an id-increasing list, above every id present, so the new entry's id is fresh |
| `Ledger.NextIdIsMaxPlusOne` | js/app.js:81-85 | in an id-increasing list, every id is below the next id, and the next id is the largest id plus one |
| `Ledger.AppendKeepsWellFormed` | js/app.js:81-95 | appending an entry with the next id keeps ids strictly increasing, kinds right and amounts positive |
| `Ledger.IndexOf` | js/app.js:114 | -1 exactly when the id is absent; otherwise a position holding the id with no earlier one |
| `Ledger.Removed` | js/app.js:110-118 | the list is unchanged exactly when no entry has the id; otherwise it loses exactly one entry, and it never gains one (its multiset shrinks) |
| `Ledger.RemovedSpec` | js/app.js:110-118 | deleting removes exactly the entry with that id and keeps the rest in order; no entry with the id is left; an absent id changes nothing |
| `Ledger.RemovedKeepsWellFormed` | js/app.js:110-118 | deleting keeps ids strictly increasing, kinds right and amounts positive |
| `Ledger.AddThenDelete` | js/app.js:81-118 | deleting the id just added restores the list, and the next add reissues that same id |
| `Ledger.Sum` | js/app.js:64-70 | the total of the amounts, accumulated front to back; it has no contract of its own, and `SumRemoved` and `SumPositive` state what it satisfies |
| `Ledger.SumRemoved` | js/app.js:64-70 | after a delete, the total drops by exactly the deleted amount; an absent id leaves it unchanged |
| `Ledger.SumPositive` | js/app.js:64-70 | with positive amounts, a total is never negative and is zero only for an empty list |
| `Ledger.PercentOf` | js/app.js:20-26 | with positive income, the result is the integer nearest to 100·part/whole, halves up; otherwise -1 |
| `Ledger.PercentBounds` | js/app.js:130-134 | a non-negative share of positive income is a known percentage, at most 100 when it does not exceed the income |
| `Ledger.SnapshotOf` | js/app.js:121-135 | the totals are the sums of the two lists, the budget is income minus expenses, and the spent share is `PercentOf(expenses, income)` |
| `Ledger.SnapshotFacts` | js/app.js:121-135 | the spent share is unknown exactly when there is no income; with no entries every figure is 0 and the share unknown; totals are non-negative; spending within income gives a share in 0..100 |
| `Ledger.CalcPercentage` | js/app.js:20-26 | an expense keeps its id, description and amount; its percentage becomes its rounded share of the income, or -1 without income |
| `Ledger.WithPercentages` | js/app.js:137-141 | one expense per expense, each keeping its id, description and amount |
| `Ledger.PercentagesOf` | js/app.js:145-147 | one value per expense, in list order, each the percentage the expense holds (what `getPercentage`, js/app.js:29-31, returns) |
| `Ledger.PercentagesAfterRecalculation` | js/app.js:137-149 | after recomputing, there is one percentage per expense, in list order, each the expense's rounded share of the income; all are -1 without income and non-negative with it |
| `Ledger.SumWithPercentages` | js/app.js:137-141 | recomputing percentages changes no total |
| `Ledger.WithPercentagesIdempotent` | js/app.js:137-141 | recomputing again against the same income changes nothing |
| `Ledger.BudgetController.constructor` | js/app.js:50-61 | starts with no entries, zero totals and budget, an unknown share, and consistent figures |
| `Ledger.BudgetController.AddItem` | js/app.js:74-99 | appends exactly one entry of the kind, with the next id and an unknown percentage, and returns it; the other list is untouched; the lists stay well formed |
| `Ledger.BudgetController.DeleteItem` | js/app.js:101-119 | the list of that kind becomes `Removed(list, id)`; the other list is untouched; the lists stay well formed |
| `Ledger.BudgetController.CalculateTotal` | js/app.js:64-70 | the loop leaves the kind's total equal to the sum of its amounts; the other total is unchanged |
| `Ledger.BudgetController.CalculateBudget` | js/app.js:121-135 | the totals, the budget (income minus expenses) and the spent share are those of the current lists |
| `Ledger.BudgetController.CalculatePercentages` | js/app.js:137-141 | the loop recomputes every expense's percentage against the current income total and changes nothing else |
| `Ledger.BudgetController.GetPercentages` | js/app.js:144-149 | one percentage per expense, in list order |
| `Ledger.BudgetController.GetBudget` | js/app.js:151-158 | the four aggregate fields as one record; it has no contract of its own, and `CalculateBudget`'s contract says what they hold |
| `Format.TwoDigits` | js/app.js:195-202 | the decimals are exactly two digits and denote the cents |
| `Format.GroupOnce` | js/app.js:198-200 | the integer part grows by one character exactly when it has more than three digits, and is unchanged otherwise |
| `Format.GroupOnceShape` | js/app.js:197-200 | the integer part keeps its digits and first digit and holds only digits and commas; it has a comma exactly when it has more than three digits, and only before the last three |
| `Format.FormatNumber` | js/app.js:190-205 | the result starts with the kind's sign and a space and ends with a point and two digits |
| `Format.FormatNumberShape` | js/app.js:190-205 | '- ' for an expense, '+ ' otherwise; then only digits and commas, with no leading zero, up to a single point followed by two digits; one comma, three digits before the point, exactly when the amount is at least 1000.00 |
| `Format.FormatNumberValue` | js/app.js:194-204 | the digits of the output denote the absolute amount |
| `Format.OneCommaOnly` | js/app.js:198-200 | 1234567.00 comes out as `+ 1234,567.00` as written, and as `+ 1,234,567.00` when corrected |
| `Format.GroupThousands` | js/app.js:191 | the corrected integer part: unchanged up to three digits, and never shorter than the digits |
| `Format.FormatNumberGrouped` | js/app.js:190-205 | the corrected formatter: the kind's sign and a space first, a point and two digits last |
| `Format.GroupThousandsDigits` | js/app.js:191 | the corrected integer part keeps its digits and holds no point |
| `Format.GroupThousandsCommas` | js/app.js:191 | in the corrected integer part, a comma stands exactly every fourth character from the right, never first |
| `Format.FormatNumberGroupedShape` | js/app.js:190-205 | the corrected output has the sign, space, point and two decimals of the written one; between them only digits and commas, no leading zero, and a comma exactly every four characters back from the point |
| `Format.FormatNumberGroupedValue` | js/app.js:190-205 | the digits of the corrected output denote the absolute amount |
| `Format.BudgetLabel` | js/app.js:277-283 | the label ends with a point and two characters; a non-zero budget is signed '+' when positive and '-' when negative |
| `Format.BudgetLabelFacts` | js/app.js:277-283 | the budget label, built with `formatNumber` as written, is "0.00" exactly for a zero budget; it starts with '+' when positive and '-' when negative; its digits denote the absolute budget |
| `Format.BudgetLabelGrouped` | js/app.js:277-283 | the same label built with the corrected formatter: signed as the budget, ending with a point and two characters |
| `Format.BudgetLabelGroupedFacts` | js/app.js:277-283 | the corrected label is "0.00" exactly for a zero budget, and its digits denote the absolute budget |
| `Format.PercentageLabel` | js/app.js:287-291 | '-' exactly when the percentage is not positive; otherwise digits followed by '%' |
| `Format.PercentageLabelFacts` | js/app.js:287-291 | the label is '-' exactly when the percentage is not positive; otherwise it is the number followed by '%' |
| `RowIds.RowId` | js/app.js:231-239 | the identifier is the kind's tag, a '-', and the numeral of the id |
| `RowIds.Split` | js/app.js:438 | there is at least one piece, and no piece holds the separator |
| `RowIds.JoinSplit` | js/app.js:438 | joining the pieces with the separator gives the identifier back |
| `RowIds.DigitPrefix` | js/app.js:440 | the longest run of digits at the start of the string |
| `RowIds.ParseInt` | js/app.js:440 | NaN (None) for the empty string and for a first character that is neither a digit nor a sign; a non-negative number when the string starts with a digit |
| `RowIds.ParseIntDigits` | js/app.js:440 | `parseInt` of a written id gives the id |
| `RowIds.ParseRowId` | js/app.js:436-443 | a row is read only when the first piece is the kind's tag; with no second piece the id is NaN (None) |
| `RowIds.ParseRowIdRoundTrip` | js/app.js:438-440 | reading back `inc-<id>` / `exp-<id>`, as written at js/app.js:231, 235 and 239, gives that kind and id |
| `RowIds.RowIdInjective` | js/app.js:239 | no two entries share a row identifier |
| `RowIds.ParseRowIdTags` | js/app.js:436-443 | an identifier is read as a row exactly when its first piece is `inc` or `exp`; the empty identifier is not a row |
| `Coordinator.AddEntry` | js/app.js:404-426 | adds exactly when the description is non-empty and the amount is positive, then recomputes everything; otherwise nothing changes |
| `Coordinator.DeleteRow` | js/app.js:428-454 | an empty or unrecognised identifier changes nothing; an id `parseInt` cannot read deletes nothing and leaves the lists and every figure as they were; otherwise the list of that kind becomes `Removed(list, id)` and everything is recomputed |
| `Coordinator.Refresh` | js/app.js:381-402 | after the budget and percentage updates, every figure agrees with the entries |

## Findings

| source | as written | input that shows it | evidently intended | confidence | as-written member | corrected member |
|---|---|---|---|---|---|---|
| js/app.js:198-200 | `formatNumber` inserts only one comma, before the last three integer digits | 1234567.00 gives `+ 1234,567.00` | a comma between every group of three digits (`+ 1,234,567.00`), as the comment at js/app.js:191 describes | medium, not executed | `Format.OneCommaOnly` | `Format.GroupThousandsCommas` |

`Format.FormatNumber` models the code as written, and `Format.BudgetLabel` uses it as the
page does. `Format.FormatNumberShape` proves its single-comma behaviour.
`Format.FormatNumberGrouped` is the corrected formatter, and `Format.BudgetLabelGrouped`
is the budget label built with it.

## Left out

- Everything that touches the page: reading the form (`getInpunt`), building and inserting the
  row HTML, removing rows, clearing fields, writing labels, `displayMonth` (which also reads the
  clock), `changedType`, the event listeners, `controller.init` and `testing`. Only the text that
  the labels choose is modelled, in `Format`.
- The `parentNode` chain that finds the clicked row (js/app.js:431). `Coordinator.DeleteRow` takes
  the row identifier as a parameter.
- Floating point. `parseFloat`, float sums, `toFixed(2)` rounding and the exponent form of numbers
  of 1e21 and above are not modelled. Amounts are exact integer cents, and `Math.round` is applied
  to the exact ratio. Because amounts are integers, the `isNaN` check of js/app.js:411 has nothing
  to reject.
- `parseInt`'s skipping of leading white space and its reading of a `0x` prefix as hexadecimal.
  Row identifiers written by the page never contain either.
- Kind strings other than `inc` and `exp`. `addItemm` is given a `Kind`, so it cannot see one.
  In `ctrlDeleteItem`, such a tag makes `deleteItem` throw before it changes anything. The model
  instead reads it as no row, and nothing changes.
- In-place updates of expense objects. `calcPercentage` changes the objects inside the array.
  The model replaces each element of the `exp` sequence instead. The item `AddItem` returns is
  a value, not an alias of the stored object. The page reads only its id, description and amount,
  and only right away.
- `Expense.prototype.getPercentage` (js/app.js:29-31) has no member of its own. It is read through
  `Ledger.PercentagesOf`.
- `Ledger.Sum` has no contract of its own: a quantified one makes the proofs about splicing
  a list too costly. `Ledger.SumRemoved` and `Ledger.SumPositive` state its properties.
- `Ledger.BudgetController.GetBudget` has no contract of its own. It only copies the four fields.
  `CalculateBudget` states what they hold.
