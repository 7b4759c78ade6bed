# Horímetro record keeping, modelled in Dafny

`streamlit_app.py` is a one-page tool for recording machine operating-hour
("horímetro") readings. An operator enters a name, picks a fleet (230 to 233),
and types the initial and final readings. The submit handler checks the
readings first, then the name. It builds a six-column record whose worked
hours are the final reading minus the initial one. It then loads the CSV
table, appends the record and writes the whole table back. Below the form,
the page lists the stored records. A selector offers `Todas` (all) and each
fleet in the table in ascending order. The page shows the selected rows and
the total of their worked hours.

The model has three modules:

- `Records` (`records.dfy`): the record, the column list, the whitespace
  test behind `str.strip()`, and `Validate`, the submit handler's decision.
- `Query` (`query.dfy`): the fleet filter, the option list (fleet names
  ordered code point by code point, as Python orders strings; on the form's
  fleet numbers this is also their numeric order), the total, and the view
  as a whole.
- `Store` (`store.dfy`): the CSV file as a class `RecordStore`. Its field
  `file` is `None` while the file does not exist. It has methods `Load`,
  `Save` and `Submit`.

Readings and worked hours are natural numbers counted in hundredths of an
hour. The form takes non-negative numbers with two decimals, so 12.5 h is
1250. The difference of two such readings is already a whole number of
hundredths, so `round(..., 2)` leaves it unchanged. `Validate` stores
`final - initial` for that reason. The submission time is a parameter.

Two points follow the code where a reader might expect otherwise:

- The final-below-initial check (line 37) runs before the blank-operator
  check (line 39).
- The table is shown in stored (insertion) order. The code does not sort it
  by date.

## Model

| member | source | states |
|---|---|---|
| `Records.Validate` | streamlit_app.py:36-52 | final < initial is rejected as FinalBelowInitial whatever the name is; otherwise a blank name is rejected as MissingOperator; otherwise the record is accepted. Both directions of each case are stated. The accepted record carries the given date, operator, fleet and readings, and its worked hours added to the initial reading give the final one, so they are never negative |
| `Records.StripEmptyIffBlank` | streamlit_app.py:39 | stripping the operator name leaves the empty string exactly when every character of the name is whitespace (the empty name included) |
| `Records.TrimStart` | streamlit_app.py:39 | the leading-whitespace half of `strip()`: the result is a suffix of the input, everything cut is whitespace, and the result is empty or starts with a non-space |
| `Records.TrimEnd` | streamlit_app.py:39 | the trailing half of `strip()`: the result is a prefix of the input, everything cut is whitespace, and the result is empty or ends with a non-space |
| `Query.BelowTransitive` | streamlit_app.py:65 | the code-point lexicographic order on fleet names, by which the option list is sorted, is transitive |
| `Query.BelowTotal` | streamlit_app.py:65 | any two different fleet names are ordered one way or the other |
| `Query.BelowAsymmetric` | streamlit_app.py:65 | of two fleet names at most one comes before the other |
| `Query.BelowIrreflexive` | streamlit_app.py:65 | no fleet name comes before itself |
| `Query.ChoicesOrderNumeric` | streamlit_app.py:31-65 | on the fleet numbers the form offers (230 to 233), one name comes before another exactly when the number it spells is smaller, so sorting the names and sorting the integers read back from the file give the same order |
| `Query.Insert` | streamlit_app.py:65 | inserting into an ascending list without repetitions keeps it ascending and adds exactly the new name |
| `Query.SortedDistinct` | streamlit_app.py:65 | the sorted distinct fleets are strictly ascending and holds exactly the values of its input |
| `Query.AscendingUnique` | streamlit_app.py:65 | two strictly ascending lists with the same elements are equal, so the option list is determined by the set of fleets |
| `Query.Fleets` | streamlit_app.py:65 | the `Frota` column holds exactly the fleets of the table's rows |
| `Query.FleetOptions` | streamlit_app.py:65 | the options are `Todas` followed by a strictly ascending list (each fleet once) that holds exactly the fleets present in the table |
| `Query.Select` | streamlit_app.py:67 | selecting the rows whose fleet equals f returns only rows of the table whose fleet is f, and no more rows than the table has |
| `Query.SelectExact` | streamlit_app.py:67 | the selected rows are exactly the table's rows of fleet f, each as often as in the table, in their original relative order |
| `Query.FilterByFleet` | streamlit_app.py:66-69 | `Todas` returns the whole table unchanged; any other selection keeps exactly the rows of that fleet, with their multiplicities, in order |
| `Query.FilterKeepsWellFormed` | streamlit_app.py:66-69 | a filtered table of well-formed records holds only well-formed records |
| `Query.AbsentFleetTotal` | streamlit_app.py:67-73 | a fleet with no records shows an empty table and a total of 0 |
| `Query.SelectAppend` | streamlit_app.py:55-67 | appending a record appends it to its own fleet's view and leaves every other fleet's view unchanged |
| `Query.TotalConcat` | streamlit_app.py:73 | the sum of worked hours over two tables put end to end is the sum of their sums |
| `Query.TotalOfSubsequence` | streamlit_app.py:73 | a table that keeps some rows of another, in order, has a total no larger than the other's |
| `Query.FilteredTotalBounded` | streamlit_app.py:66-73 | the total shown for any selection is at most the total for the whole table |
| `Query.PerFleetTotalAppend` | streamlit_app.py:55-73 | appending a record raises the sum of per-fleet totals over an ascending (hence repetition-free) list of fleets by its worked hours when its fleet is listed, and by nothing otherwise |
| `Query.PartitionByFleets` | streamlit_app.py:66-73 | for an ascending (hence repetition-free) list of fleets that covers every row, the per-fleet totals add up to the table's total |
| `Query.PerFleetTotalsAddUp` | streamlit_app.py:65-73 | the totals shown for the fleets of the option list add up to the total shown for `Todas` |
| `Query.ZeroPerFleet` | streamlit_app.py:73 | on an empty table the sum of the per-fleet totals over any list of fleets is 0 |
| `Query.AppendTotals` | streamlit_app.py:54-73 | after an accepted submission the total for `Todas` and for the record's fleet grows by its worked hours; other fleets' totals do not change |
| `Query.AppendOptions` | streamlit_app.py:54-65 | after an accepted submission the option list is the old one with the record's fleet inserted in its place (unchanged if already listed) |
| `Query.Show` | streamlit_app.py:62-75 | an empty table shows the "no records" notice and nothing else; otherwise the options are the fleet option list, `Todas` shows every row with the full total, any other selection shows the filtered table (exactly the rows of that fleet, with their multiplicities, in order); the total is always the sum of worked hours over the rows shown, and never exceeds the full total |
| `Store.RecordStore.constructor` | streamlit_app.py:10 | the store starts from a given file state (missing, or holding records written by the handler) |
| `Store.RecordStore.Load` | streamlit_app.py:13-19 | loading gives the six columns Data, Operador, Frota, Horimetro Inicial, Horimetro Final, Horas Trabalhadas in that order, with the file's rows; a missing file gives an empty table with those columns |
| `Store.RecordStore.Save` | streamlit_app.py:22-23 | saving overwrites the file with exactly the given rows |
| `Store.RecordStore.Submit` | streamlit_app.py:36-56 | the outcome is `Validate`'s; a rejected submission leaves the file as it was; an accepted one leaves it holding the old rows, unchanged and in place, followed by the new record; every stored record stays well-formed with a fleet from the form's choices |

## Left out

- Page rendering and widgets (title, form, selectors, table display, messages) are not modelled. The widget limits become preconditions: `Submit` requires the fleet to be one of 230 to 233, and readings are natural numbers.
- Creating the `dados` folder, CSV parsing and writing, and pandas type inference are not modelled. For example, `Frota` comes back from the CSV as an integer, so the program sorts and compares fleets as numbers, while the model keeps them as strings. The `Query` lemmas are stated for any strings; they agree with the program's numeric order only on names that are digit strings of one length, such as the form's fleet numbers 230 to 233 that every stored record carries (`Query.ChoicesOrderNumeric`). The file is a sequence of records; a malformed file is not modelled.
- `Store.RecordStore.Save`: requires the canonical columns, because the file holds records, not arbitrary tables; the handler only ever saves tables loaded with those columns.
- `datetime.now()` and its formatting are not modelled: the timestamp is a string parameter.
- Floating-point readings and the float behaviour of `round` are not modelled: readings are exact hundredths.
- Two sessions writing the same CSV at once can lose updates. This concurrency is not modelled.
- A spreadsheet export and a login gate are not part of this file and are not modelled.
