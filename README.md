# Case reconstruction from a case-export sheet

This project models how the case-report scripts rebuild one record per
support case from an exported sheet. In the export a case's Description
is broken over several physical rows. Only the first of those rows carries
the Case Number, Subject and Status.

Both `chatbot.py` and `simple_cleaner.py` clean the sheet in the same way:

1. They forward-fill Case Number, Subject and Status, so each blank cell
   takes the nearest value above it in the same column.
2. They drop rows that still have no Case Number.
3. They turn every Description into text (a blank cell reads `nan`) and
   delete every case-insensitive `nan` from it.
4. They group the rows by Case Number in ascending key order. Each group
   takes the first present Subject and Status and joins the Description
   pieces in row order. `chatbot.py` joins them with a space and
   `simple_cleaner.py` with nothing in between.
5. They cast the Case Number to an integer.

`chatbot.py` then counts the records per Status, both for the report and
on the console.

## Layout

- `cells.dfy` (module `Cells`) defines the values the pipeline handles:
  - rows of optional cells, where `None` is a blank (NaN) cell;
  - `CaseCell`, a Case Number cell that either casts to an integer (`Id`)
    or does not (`Unparsable`);
  - kept fragments and the rebuilt `CaseRecord`;
  - `Option`, `Result` and the load error.
- `forward_fill.dfy` (module `ForwardFill`) specifies the fill, column by
  column, and the removal of rows without a Case Number.
- `description_cleaning.dfy` (module `DescriptionCleaning`) specifies the
  conversion of a cell to text and the case-insensitive, left-to-right,
  non-overlapping removal of `nan`.
- `merge.dfy` (module `Merge`) specifies the integer cast, the sorted
  distinct keys, `first` on Subject and Status, and the join of the pieces.
- `status_summary.dfy` (module `StatusSummary`) specifies the per-Status
  count. It is an ascending association list ordered by code point, with
  one entry per present Status.
- `pipeline.dfy` (module `Pipeline`) holds `CaseFrame`, the sheet as an
  array of rows that the fill, the drop and the cleaning change in place.
  Each method is proved against the specification function of its step.
  The module also holds the whole load-and-clean operation and the
  end-to-end lemmas.
- `scenario.dfy` (module `Scenario`) works through a four-row sheet from
  start to finish.

Three behaviours of the code are easy to mistake, and the model keeps them
as written:

- Records come out in ascending Case Number order, because grouping sorts
  its keys. They do not come in first-seen order.
- Descriptions are never trimmed. A blank first piece or the space left
  where `nan` was removed stays in the joined text (`Scenario.SheetScenario`).
- Each piece is cleaned before the join, not the joined text.

Merging a table that already holds one row per case, in ascending order,
changes nothing (`Merge.MergeSingletons`). Re-running the whole load on its
own output can still change Descriptions, because cleaning is not
idempotent: `nnanan` cleans to `nan`, and `nan` cleans to the empty text
(`DescriptionCleaning.CleaningNotIdempotent`).

The integer cast is modelled as a check made before grouping rather than
after it. The outcome is the same: every kept row's Case Number is the key
of some group, so the cast fails after grouping exactly when it fails on
some kept row.

## Model

| member | source | states |
|---|---|---|
| ForwardFill.LastPresentSpec | chatbot.py:62 | The value the fill puts in a cell is present iff some cell at or above it in the column is, and then it is the value of the nearest such cell, with only blanks in between. |
| ForwardFill.FillForwardCells | chatbot.py:62 | After the fill, a present identifier cell keeps its value, a blank one takes the nearest present value above it (or stays blank), and the Description is untouched. |
| ForwardFill.FilledCaseNumberSource | chatbot.py:62 | A filled Case Number is the value of some row at or above it; the fill invents no value. |
| ForwardFill.FillSetOtherColumns | chatbot.py:62 | Filling some columns leaves every other column as it was. |
| ForwardFill.FillSetStep | simple_cleaner.py:19 | Filling one more column after others equals filling them all together. |
| ForwardFill.FillColumnsFrom | simple_cleaner.py:19 | Filling distinct columns one after another, in any order, equals filling them at once. |
| ForwardFill.FillOrderImmaterial | simple_cleaner.py:19 | The column order of `simple_cleaner.py` (Case Number, Status, Subject) and that of `chatbot.py` (Case Number, Subject, Status) give the same filled table. |
| ForwardFill.FillSetAll | chatbot.py:62 | Filling the three identifier columns as a set is the three-column fill. |
| ForwardFill.KeepNumberedMembers | chatbot.py:63 | The drop keeps exactly the rows that have a Case Number, no others. |
| ForwardFill.KeepNumberedStep | simple_cleaner.py:22 | Scanning one more row adds it to the kept rows iff it has a Case Number. |
| ForwardFill.FirstNumberedFrom | chatbot.py:63 | The returned index is the first row at or after the start that has a Case Number, or the end when there is none. |
| ForwardFill.LeadingBlanks | chatbot.py:63 | The number of rows before the first Case Number: all of them are blank and the next one is not. |
| ForwardFill.FilledCaseNumbers | chatbot.py:62-63 | After the fill, a row's Case Number is blank iff the row comes before the first Case Number of the sheet. |
| ForwardFill.KeepNumberedSuffix | chatbot.py:63 | If the blank Case Numbers form a prefix, the drop leaves exactly the suffix after it. |
| ForwardFill.DropOnlyLeading | chatbot.py:62-63 | After the fill, the drop removes only the leading rows that come before the first Case Number and keeps every later row in order. |
| DescriptionCleaning.RemoveNanLength | chatbot.py:64 | Each match of the scan removes exactly three characters and nothing else is removed. |
| DescriptionCleaning.NanMatchesIff | chatbot.py:64 | The left-to-right scan finds a match iff the text contains `nan` in any case. |
| DescriptionCleaning.RemoveNanUnchangedIff | chatbot.py:64 | Cleaning leaves a text unchanged iff it contains no `nan` in any case (both directions). |
| DescriptionCleaning.NoNanUnchanged | simple_cleaner.py:25 | A text without `nan` in any case is left as it is. |
| DescriptionCleaning.BlankDescriptionIsEmpty | simple_cleaner.py:25 | A blank Description, which reads `nan` as text, cleans to the empty text. |
| DescriptionCleaning.NanInsideWords | chatbot.py:64 | `nan` is removed inside words and in any case: `financial` becomes `ficial` and `NaNcy` becomes `cy`. |
| DescriptionCleaning.CleaningNotIdempotent | chatbot.py:64 | Cleaning is not idempotent: `nnanan` cleans to `nan`, which cleans again to the empty text. |
| Merge.FragmentsOf | chatbot.py:65-70 | The integer Case Numbers of the fragments are exactly those of the rows. |
| Merge.Cast | chatbot.py:70 | The cast fails iff some row holds a Case Number that is not an integer; otherwise it gives the fragments of the rows, in row order. |
| Merge.InsertKey | chatbot.py:65 | Inserting a key into an ascending key list keeps it strictly ascending, adds that key and drops none. |
| Merge.SortedKeys | chatbot.py:65 | The group keys are strictly ascending and are exactly the distinct Case Numbers. |
| Merge.CaseTextsAppend | chatbot.py:65-67 | Gathering a case's pieces works over any split of the rows and keeps row order, so a case's rows need not be next to each other. |
| Merge.CaseTextsNonEmpty | chatbot.py:65-67 | A case has at least one piece iff one of its rows was kept. |
| Merge.FirstPresent | chatbot.py:66-68 | `first` gives blank iff every row of the case is blank in that column; otherwise it gives the value of the earliest row of the case where the column is present. |
| Merge.JoinLength | chatbot.py:67 | A join with a space holds every piece plus one separator between each two, with nothing trimmed or dropped. |
| Merge.JoinEmptySeparator | simple_cleaner.py:30 | A join with the empty separator is plain concatenation, and its length is the sum of the piece lengths. |
| Merge.MergeOnePerCase | chatbot.py:65-69 | The merged records are in strictly ascending Case Number order, one per distinct Case Number and no other, each built from its own case's rows, each from at least one piece. |
| Merge.CaseRowsAppend | chatbot.py:65 | Picking the rows of a case works over any split of the rows and keeps row order. |
| Merge.FirstRowValue | chatbot.py:66-68 | The value is blank iff the column is blank in every row; otherwise it is the value of the earliest row where the column is present. |
| Merge.FragmentsOfCaseTexts | chatbot.py:65-67 | The pieces gathered for a case from the cast rows are the Description texts of exactly that case's rows, in row order. |
| Merge.FragmentsOfCaseFirst | chatbot.py:66-68 | The `first` Subject or Status of a case, taken over the cast rows, is the first present value among that case's rows. |
| Merge.InsertKeyLast | chatbot.py:65 | A key above every key of an ascending list is placed at its end. |
| Merge.SortedKeysAscending | chatbot.py:65 | When the rows already come one per case in ascending order, the group keys are their Case Numbers as they stand. |
| Merge.CaseTextsAbsent | chatbot.py:65-67 | A key that no row has gathers no piece. |
| Merge.CaseTextsSingle | chatbot.py:65-67 | With distinct keys, each case gathers exactly its own single piece. |
| Merge.MergeSingletons | chatbot.py:65-69 | Merging rows that already hold one row per case in ascending order changes nothing: each record has that row's Case Number, Subject, Description and Status. |
| StatusSummary.LexLessIrreflexive | chatbot.py:78 | No Status sorts before itself. |
| StatusSummary.LexLessTotal | chatbot.py:78 | Of two different Status values, one sorts before the other. |
| StatusSummary.LexLessTransitive | chatbot.py:78 | The Status order is transitive. |
| StatusSummary.AddStatus | chatbot.py:78 | Counting one more record keeps the summary ascending and adds its Status to the keys. |
| StatusSummary.AddStatusCountIn | chatbot.py:78 | Counting one more record raises the count of its Status by one and leaves every other count alone. |
| StatusSummary.AddStatusSum | chatbot.py:78 | Counting one more record raises the total by one. |
| StatusSummary.AddStatusPositive | chatbot.py:78 | Counting one more record keeps every count at least one. |
| StatusSummary.AddStatusCounts | chatbot.py:78 | The three facts above together. |
| StatusSummary.Summarize | chatbot.py:100 | The summary is ascending, has one entry per present Status and no other, gives each Status the number of records with it, has every count at least one, and its counts add up to the number of records that have a Status. |
| StatusSummary.CountInAt | chatbot.py:100 | Each entry of an ascending summary holds the count looked up for its own key. |
| StatusSummary.SummaryEntries | chatbot.py:78 | Entry by entry: each count is the number of records with that Status and at least one; the entries are ascending; there is an entry for a Status iff some record has it; the total is at most the number of records. |
| StatusSummary.PresentCountBound | chatbot.py:81 | At most every record has a Status. |
| Pipeline.CaseFrame.constructor | chatbot.py:60 | The frame holds exactly the loaded rows. |
| Pipeline.CaseFrame.FillForward | chatbot.py:62 | The fill, done in one pass in place, leaves exactly the forward-filled table. |
| Pipeline.CaseFrame.DropBlankCaseNumbers | chatbot.py:63 | The in-place drop leaves exactly the rows with a Case Number, in order. |
| Pipeline.CaseFrame.CleanDescriptions | chatbot.py:64 | The in-place cleaning replaces every Description by its cleaned text and changes nothing else. |
| Pipeline.LoadAndCleanData | chatbot.py:57-72 | The frame operations followed by the cast and the merge give exactly the specified result of the whole load and clean. |
| Pipeline.FilledCaseCells | chatbot.py:62 | The fill keeps exactly the set of Case Number values of the sheet. |
| Pipeline.CleanRowsCaseCells | chatbot.py:64 | Cleaning Descriptions leaves the Case Number values alone. |
| Pipeline.CleanedCaseCells | chatbot.py:62-64 | Fill, drop and cleaning together keep exactly the Case Number values of the sheet. |
| Pipeline.HasUnparsableCells | chatbot.py:70 | A row holds a non-integer Case Number iff that value is among the sheet's Case Number values. |
| Pipeline.RowIdsCells | chatbot.py:70 | The integer Case Numbers of rows are the integer values among their Case Number cells. |
| Pipeline.LoadFailsIff | chatbot.py:70 | The load fails iff some Case Number anywhere in the sheet is not an integer. The drop cannot hide a bad value, since it removes only rows left blank. |
| Pipeline.LoadOnePerCase | chatbot.py:62-70 | On success the records come in strictly ascending Case Number order, with a record for a number iff the sheet holds that integer Case Number. Each record comes from at least one filled row of its case. Its Description is the separator-join of those rows' cleaned Descriptions in row order, and its Subject and Status are the first present values among them. |
| Pipeline.CaseRowsKeepNumbered | chatbot.py:63 | The drop keeps every row of every case, because a row with an integer Case Number is never blank. |
| Pipeline.CaseRowsCleanRows | chatbot.py:64 | Cleaning Descriptions and picking the rows of a case can be done in either order. |
| Pipeline.TextsCleanRows | chatbot.py:64 | The texts of cleaned rows are their cleaned Descriptions, in row order. |
| Pipeline.FirstRowValueCleanRows | chatbot.py:64-68 | Cleaning Descriptions does not change the first present Subject or Status. |
| Pipeline.CaseRecordContents | chatbot.py:62-69 | The record of case `k` has as Description the separator-join of the cleaned Descriptions of the filled rows of `k` in row order. Its Subject and Status are the first present values among those rows. |
| Pipeline.LoadRecordAt | chatbot.py:57-72 | Each record of a successful load comes from at least one filled row of its case. Its Description joins those rows' cleaned Descriptions in row order, and its Subject and Status are their first present values. |
| Pipeline.AscendingCardinality | chatbot.py:65 | A strictly ascending key list has no repeats. |
| Pipeline.LoadCaseCount | chatbot.py:81 | The reported total of cases is the number of distinct Case Numbers in the sheet. |
| Pipeline.MergeSeparators | simple_cleaner.py:28-32 | Merging with a space or with nothing gives records that agree in Case Number, Subject and Status and join the same pieces. |
| Pipeline.SeparatorOnlyDifference | simple_cleaner.py:19-35 | The two scripts fail on the same sheets. On the rest they return records that differ only in the Description separator. |
| Pipeline.NanAcrossPieces | simple_cleaner.py:25-30 | Pieces are cleaned before the join, so with the empty separator `nan` can form again across two pieces (`n` + `an`). |
| Scenario.SheetFill | chatbot.py:62 | In the four-row sheet, the two continuation rows of case 1 take its Case Number, Subject and Status. |
| Scenario.SheetClean | chatbot.py:63-64 | No row of the sheet is dropped, and the Description `nan y` becomes ` y`. |
| Scenario.SheetCast | chatbot.py:70 | Every Case Number of the sheet casts, so the fragments are the four rows. |
| Scenario.SheetJoin | chatbot.py:67 | Joining the pieces of case 1 with a space gives ` x  y`, untrimmed. |
| Scenario.SheetTexts | chatbot.py:67 | Case 1 has three pieces (the first one empty) and case 2 has one. |
| Scenario.SheetKeys | chatbot.py:65 | The group keys are 1 and 2. |
| Scenario.SheetFirst | chatbot.py:66-68 | `first` picks Login/Open for case 1 and Bill/Closed for case 2. |
| Scenario.SheetMerge | chatbot.py:65-69 | The merge gives exactly the two expected records. |
| Scenario.SheetScenario | chatbot.py:57-72 | The whole pipeline on the sheet returns case 1 with Description ` x  y` and case 2 with `z`. |

## Left out

- Reading the workbook is not modelled: `read_excel`, the header at row 19
  and the stripping of column names. The model starts from the loaded rows.
- The Case Number is not held as a floating-point number. Pandas stores it
  as a float and `astype(int)` truncates it. The model takes a cell as
  either an integer or a value the cast rejects. A fractional Case Number
  (two groups truncating to one integer) and a digit-only text cell are
  not modelled.
- The error for a non-integer Case Number keeps the first such value in
  row order. Which value pandas names in its message, and the message
  text, are not modelled.
- `.fillna('')` after `astype(str)` has no effect, because no cell is blank
  after the conversion to text. It is not a separate step.
- The order of the returned columns is presentation only. `chatbot.py`
  returns Case Number, Subject, Description, Status and `simple_cleaner.py`
  returns Case Number, Description, Subject, Status. The model returns
  one record type.
- Side effects are not modelled: console output, the HTML report
  (`to_html`, the template), writing the report file, opening the browser,
  the exception handlers and `sys.exit`.
- `inspect_csv.py` is not part of this model.
- The blank-Description case of `Merge.TextOf` cannot arise after
  cleaning. It maps to the empty text only so that the function is total.
- Strings are sequences of characters, and the Status order compares them
  by code point, as Python does. Unicode normalisation is not modelled.
