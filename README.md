# Attestation form: a verified model

The attestation form of the `kay` Drupal module (`src/Form/AttestationForm.php`)
shows one or more tables. Each table has one row per year. Each row holds
twelve month inputs, grouped into four quarters of three, followed by a
quarter slot after every third month and a year-to-date slot.

The form has three buttons:

- "Add Year" adds a row to every table.
- "Add Table" adds a table.
- "Submit" validates the grid. If validation passes, it writes the quarter and
  year-to-date totals into the derived slots.

This project models that engine in Dafny and proves what it computes.

- **Grid** (`Grid.dfy`): the submitted values.
  - A cell is `Unfilled` (the empty input) or `Value(x)`.
  - A row is twelve cells; a table is a sequence of rows; the grid is a
    sequence of tables.
  - Rows are addressed by their position: row `r` of a form with `rowCount`
    rows is year `currentYear - rowCount + 1 + r`.
- **Layout** (`Layout.dfy`): the row buildForm lays out.
  - Slot 0 is the year label.
  - Month inputs are keyed 0..11, in order.
  - Quarter slot `i` sits at `4 + 4i`, and the year-to-date slot is 17.
- **Validation** (`Validation.dfy`): what validateForm reports, as pure
  functions with their properties proved as lemmas.
  - The first and last filled cell of a table, in row-major order.
  - The number of empty tables.
  - The column bounds `$row_bounds` of a one-year form.
  - The resulting `Errors`: a structural flag ("Please fill out the table.")
    and a set of marked `(table, row, column)` positions. Drupal keys errors
    by element name, so marking a cell twice is one error.
- **Aggregation** (`Aggregation.dfy`): the quarter and year-to-date formulas,
  and a two-decimal rounding with halves away from zero.
- **Attestation** (`AttestationForm.dfy`): the class `AttestationForm`, with
  the counters `tableCount` and `rowCount` and the handlers. Each loop of the
  source is a method proved against the functions above:
  - the forward scan with `break 2`;
  - the reverse scan with the `found` flag;
  - the loop over tables, with its `$row_bounds` accumulator and
    `$empty_count` counter;
  - the consistency pass of a one-year form;
  - the quarter and year-to-date sums;
  - the row and table loops of buildForm.
- **Examples** (`Examples.dfy`): two worked submissions.

The model follows the code of `validateForm` and `submitForm` as written:

- The span of a table runs from its first to its last filled cell in
  row-major order, across year boundaries.
- In a one-year form the reverse scan marks nothing. It only records the
  largest last column.
- The consistency pass then marks the empty cells of every table, including
  entirely empty tables, between the smallest first column and the largest
  last column.
- The "+1" seeds of both sums are kept as written.

## Model

| member | source | states |
|---|---|---|
| Validation.First | src/Form/AttestationForm.php:148-161 | The result is a filled cell and no filled cell comes before it in row-major order; it is None only if no cell of the table is filled. |
| Validation.Last | src/Form/AttestationForm.php:167-197 | The result is a filled cell and no filled cell comes after it; it is None only if no cell is filled. |
| Validation.FirstIs | src/Form/AttestationForm.php:151-158 | A filled cell with nothing filled before it is the first filled cell. |
| Validation.LastIs | src/Form/AttestationForm.php:169-191 | A filled cell with nothing filled after it is the last filled cell. |
| Validation.FirstLastTogether | src/Form/AttestationForm.php:163-169 | A table has a first filled cell exactly when it has a last one, and the last does not come before the first. |
| Validation.WidenLower | src/Form/AttestationForm.php:155-157 | The lower bound becomes the smaller of its old value and the column, or the column when it was unset. |
| Validation.WidenUpper | src/Form/AttestationForm.php:183-185 | The upper bound becomes the larger of its old value and the column, or the column when it was unset. |
| Validation.GapsBelowMember | src/Form/AttestationForm.php:147-197 | After the first n tables, the marked cells are exactly the span gaps lying in those tables. |
| Validation.GapsBelowAll | src/Form/AttestationForm.php:147-198 | After the last table, the marked cells are all the span gaps. |
| Validation.TableGapsStep | src/Form/AttestationForm.php:172-178 | The gaps of table t are exactly the span gaps lying in table t. |
| Validation.EmptyCount | src/Form/AttestationForm.php:163-165 | The empty-table count never exceeds the number of tables counted. |
| Validation.EmptyCountAll | src/Form/AttestationForm.php:163-165 | The count reaches n exactly when each of the first n tables has no filled cell. |
| Validation.AllTablesEmptyIff | src/Form/AttestationForm.php:163-166 | Every table counts as empty exactly when every cell of the grid is unfilled. |
| Validation.EmptyTableStep | src/Form/AttestationForm.php:163-166 | An empty table has no gaps, and it leaves the upper bound unchanged. |
| Validation.LowestStep | src/Form/AttestationForm.php:155-157 | Scanning one more table widens the lower bound by that table's first filled column, if it has one. |
| Validation.HighestStep | src/Form/AttestationForm.php:183-185 | Scanning one more non-empty table widens the upper bound by its last filled column. |
| Validation.LowestIsMinimum | src/Form/AttestationForm.php:155-157 | The lower bound is set exactly when some entry is set. It is then attained by an entry and is no larger than any entry. |
| Validation.HighestIsMaximum | src/Form/AttestationForm.php:183-185 | The upper bound is set exactly when some entry is set. It is then attained by an entry and is no smaller than any entry. |
| Validation.LowerBound | src/Form/AttestationForm.php:147-158 | `$row_bounds[0]` after the tables loop: when set, it is the first filled column of some table, and it is set and no larger than the first filled column of every non-empty table. |
| Validation.UpperBound | src/Form/AttestationForm.php:167-188 | `$row_bounds[1]` after the tables loop of a one-year form: when set, it is the last filled column of some table, and it is set and no smaller than the last filled column of every non-empty table. |
| Validation.LowerBoundSetIffFilled | src/Form/AttestationForm.php:152-157 | The lower bound is set exactly when some table is non-empty. |
| Validation.LowerBoundIff | src/Form/AttestationForm.php:155-157 | In a one-year form, the lower bound is at most column k exactly when some table has a filled cell at or before k. |
| Validation.UpperBoundIff | src/Form/AttestationForm.php:181-185 | In a one-year form, the upper bound is at least column k exactly when some table has a filled cell at or after k. |
| Validation.BoundsOrdered | src/Form/AttestationForm.php:204-209 | In a one-year form, once the lower bound is set the upper bound is set too and is not below it. |
| Validation.SingleRowFlags | src/Form/AttestationForm.php:204-218 | The consistency pass marks only empty cells, and marks nothing when no table has a filled cell. |
| Validation.ValidationErrors | src/Form/AttestationForm.php:139-220 | The structural error is raised exactly when the submit button triggered the request and the empty tables number tableCount. In a one-year form it then comes with no marks. |
| Validation.NoErrorsUnlessSubmit | src/Form/AttestationForm.php:141-143 | A request not triggered by the submit button yields no errors at all. |
| Validation.StructuralIffAllEmpty | src/Form/AttestationForm.php:199-203 | On a well-shaped grid the structural error is raised exactly when every cell is empty, and it is then the only error. |
| Validation.FilledNeverFlagged | src/Form/AttestationForm.php:172-210 | Every marked position is an empty cell of the grid. |
| Validation.MultiRowFlagsAreInteriorGaps | src/Form/AttestationForm.php:167-197 | With more than one row, a cell is marked exactly when it is empty and some filled cell of its table comes before it and some comes after it in row-major order. |
| Validation.SingleFilledCellNoErrors | src/Form/AttestationForm.php:190-195 | With more than one row, a table whose first and last filled cells coincide gets no marks. |
| Validation.SomeTableFilled | src/Form/AttestationForm.php:199-204 | In a one-year form with a filled cell, the structural error is not raised and the lower bound is set. |
| Validation.SingleRowErrors | src/Form/AttestationForm.php:204-218 | A one-year form with a filled cell gets exactly the range pass over [lower, upper], with lower ≤ upper, and no structural error. |
| Validation.SingleRowFlagsExact | src/Form/AttestationForm.php:204-218 | In a one-year form with a filled cell, a cell of any table, an empty table included, is marked exactly when it is empty and its column has a filled cell at or before it and one at or after it, in any tables. |
| Aggregation.RoundHalfAway | src/Form/AttestationForm.php:238 | The result is the nearest integer, and halves go away from zero. |
| Aggregation.Round2 | src/Form/AttestationForm.php:238 | The result is a whole number of hundredths within 0.005 of the input. A tie goes away from zero: for x ≥ 0, result − 0.005 ≤ x < result + 0.005; for x < 0, result − 0.005 < x ≤ result + 0.005. |
| Aggregation.Round2Exact | src/Form/AttestationForm.php:242 | A whole number of hundredths is left unchanged. |
| Aggregation.Round2Idempotent | src/Form/AttestationForm.php:238-242 | Rounding twice equals rounding once. |
| Aggregation.Round2Monotone | src/Form/AttestationForm.php:238 | Rounding preserves order. |
| Aggregation.CellNumber | src/Form/AttestationForm.php:236 | A filled cell contributes its number and the empty input counts as 0. It contributes 0 only when empty or filled with 0. |
| Aggregation.QuarterValue | src/Form/AttestationForm.php:234-238 | Quarter i is a whole number of hundredths within 0.005 of (1 + the sum of its three cells) / 3. |
| Aggregation.YtdValue | src/Form/AttestationForm.php:231-242 | The year to date is a whole number of hundredths within 0.005 of (1 + the sum of the four rounded quarter values) / 4. |
| Aggregation.QuarterValueFormula | src/Form/AttestationForm.php:234-238 | Quarter i is round((1 + cell 3i + cell 3i+1 + cell 3i+2) / 3, 2), and empty cells count as 0. |
| Aggregation.YtdValueFormula | src/Form/AttestationForm.php:231-242 | The year to date is round((1 + the four rounded quarter values) / 4, 2). |
| Aggregation.QuarterValueMonotone | src/Form/AttestationForm.php:234-238 | Raising cells of a quarter never lowers that quarter's value. |
| Aggregation.QuarterOfThreeFiveSeven | src/Form/AttestationForm.php:234-238 | A quarter holding 3, 5 and 7 is 5.33. |
| Aggregation.EmptyRowTotals | src/Form/AttestationForm.php:231-243 | An all-empty row gets 0.33 for each quarter and 0.58 for the year to date, because of the seeds of 1. |
| Layout.MonthKeysInOrder | src/Form/AttestationForm.php:72-77 | Each month key m from 0 to 11 sits at the slot of quarter m/3, position m%3, and a smaller key sits at an earlier slot. |
| Layout.SlotKinds | src/Form/AttestationForm.php:71-78 | In a laid-out row, slot 0 is the year, slot 17 the year to date, slot 4+4i quarter i, and every other slot a month input. |
| Layout.LaidOut | src/Form/AttestationForm.php:71-78 | A laid-out row has 18 slots: the year, month key 3i+j at slot 1+4i+j, quarter slot i at 4+4i and the year to date at 17. Every month key 0..11 occurs in it. |
| Attestation.BuildRow | src/Form/AttestationForm.php:71-78 | The template row is laid out: the year, months keyed 0..11 with quarter slot i after each third month, then the year to date. Every derived text is empty. |
| Attestation.Totalled | src/Form/AttestationForm.php:240-243 | The totalled row has every quarter text set to its quarter value and the year-to-date text to its value, with the year and month slots kept. Totalling a laid-out row gives a laid-out row. |
| Attestation.ForwardScan | src/Form/AttestationForm.php:148-161 | It returns the table's first filled cell, as First defines it, and widens the lower bound by that cell's column. |
| Attestation.ReverseScan | src/Form/AttestationForm.php:167-197 | In a one-year form it marks nothing and widens the upper bound by the last filled column. Otherwise it leaves the bound alone and marks exactly the table's gaps. |
| Attestation.ScanTable | src/Form/AttestationForm.php:147-197 | One table's scans take the bounds, the empty count and the marks from their values after t tables to their values after t+1 tables. |
| Attestation.ScanTables | src/Form/AttestationForm.php:144-198 | After the tables loop, the lower bound is the smallest first column and the upper bound the largest last column (one-year form only). The empty count counts the empty tables, and the marks are all span gaps, or none in a one-year form. |
| Attestation.MarkRange | src/Form/AttestationForm.php:206-218 | The marked cells are exactly the empty cells, in every row of every table, whose column lies in [lo, hi]. |
| Attestation.TotalRow | src/Form/AttestationForm.php:229-244 | Quarter slot i gets the quarter value and slot 17 the year-to-date value; the year and month slots are unchanged. |
| Attestation.AttestationForm.constructor | src/Form/AttestationForm.php:29-36 | A new form has one table of one row. |
| Attestation.AttestationForm.AddRow | src/Form/AttestationForm.php:252-255 | The row count goes up by one and the table count is unchanged. |
| Attestation.AttestationForm.AddTable | src/Form/AttestationForm.php:260-263 | The table count goes up by one and the row count is unchanged. |
| Attestation.AttestationForm.BuildForm | src/Form/AttestationForm.php:102-112 | The form has tableCount identical tables numbered 1, 2, …. Each holds rowCount blank laid-out rows whose years run consecutively up to the current year. |
| Attestation.AttestationForm.ValidateForm | src/Form/AttestationForm.php:139-220 | The errors are those ValidationErrors defines for the current counters; with any other trigger than submit there are none. |
| Attestation.AttestationForm.SubmitForm | src/Form/AttestationForm.php:225-247 | Every row of every table is totalled as TotalRow states; captions and row counts are unchanged. |
| Examples.OneYearGridBounds | src/Form/AttestationForm.php:155-185 | For tables filled March–June, April–May and not at all, the shared period is March–June. |
| Examples.OneYearPeriodsMatch | src/Form/AttestationForm.php:204-218 | On that grid, the second table is marked in March and June and the empty third table in all four months. Nothing else is marked and no structural error is raised. |
| Examples.SpanCrossesYears | src/Form/AttestationForm.php:167-197 | A two-year table filled in November of year one and February of year two gets December and January marked, across the year boundary. |

## Left out

- Render arrays are not modelled: the header labels, the button definitions, `#ajax` settings, the attached library and `Html::cleanCssIdentifier`. The table caption is kept as its number only, not the translated text "Table #n".
- `getFormId`, `updateAjaxCallback`, `setRebuild` and `messenger()->addStatus` are not modelled; they are framework I/O.
- `date('Y')` is not called: the current year is the parameter `currentYear` of `BuildForm`.
- The triggering element is passed in as its `#name` string.
- Drupal calls `submitForm` only after `validateForm` reported no errors, and keeps cell values across rebuilds. Both are framework behaviour and are not modelled. `SubmitForm` computes the totals of whatever values it is given.
- Rows are addressed by position, not by their year key (see above). An error position `Pos(t, r, c)` stands for the element `tables][t][year of r][c`.
- PHP floats and the IEEE behaviour of `round()` are not modelled. The arithmetic is exact over reals, and `Round2` rounds to hundredths with halves away from zero.
- How PHP coerces the empty string in `$part_sum += $row[...]` (a warning or an error, depending on the PHP version) is not modelled; an empty cell counts as 0.
- Reading an unset `$row_bounds` key gives NULL, with a PHP warning; the model uses `None`. If both bounds are still unset when the range pass runs, PHP's loop marks nothing, and so does `SingleRowFlags`. This can only happen when the number of submitted tables differs from `tableCount`.
- Attestation.AttestationForm.AddRow: the counters are unbounded integers; PHP's integer overflow is not modelled.
- Attestation.AttestationForm.BuildForm: states only the tables part of the returned form. The other render elements are left out, as listed above.
