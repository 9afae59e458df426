# Workout tracker: record handling

`main.py` is a Streamlit script that logs strength-training sets to a Google spreadsheet
with three worksheets:
- Training Log;
- Exercise Master;
- Constants.

Between its UI and its spreadsheet calls sits a small amount of deterministic record
handling. This project models that logic and proves what it guarantees:

- **Log IDs** (`LogIds`, `Numbers`). When the log is loaded, each ID cell is coerced to an
  integer: a missing cell or a non-number becomes 0. The next row's ID is then allocated from
  that same loaded snapshot. It is 1 for an empty log, and otherwise the largest coerced ID
  plus one.
- **The appended row** (`LogRow`). The submitted form becomes one 12-field record:
  - the exercise's ID and target muscle group are copied from the Exercise Master, with ""
    when the name has no master row;
  - the date is written as `%Y-%m-%d`.

  The record is then laid out along a header, one value per column and "" where the record
  has no value. The header is the loaded log's header, or a fixed 12-column header when the
  log is empty.
- **Reference lists** (`Reference`):
  - the SetType and Unit choices from Constants, with missing values dropped and repeats
    removed in first-appearance order;
  - the exercise choices and the name-to-row index from Exercise Master.
- **The dashboard's exercise picker** (`Dashboard`, `Order`):
  - the logged exercise names, sorted and without repeats;
  - optionally narrowed to the names whose master row has the selected target muscle group;
  - the position selected by default, which is the last logged exercise when it is listed.

A worksheet is a `Sheet.Frame`: its header and one record per row. A record maps a column
to the text of its cell, and a column missing from a record stands for a missing value
(NaN). The script stops on three conditions:
- an uncaught KeyError for a missing column;
- the duplicate-index error of `to_dict`;
- an explicit `st.stop()`.

Each of these is an `Err` of `Sheet.Result`. The two loops of the script are methods proved
against the functions that specify them:
- `rows_to_append` is `LogRow.RowsToAppend`;
- `filtered_exercises` is `Dashboard.FilterByMuscle`.

The two steps that run those loops, `LogRow.SubmitLog` and `Dashboard.ChooseExercises`, are
methods too. Everything else is written as functions and lemmas.

The script writes dates with `strftime("%Y-%m-%d")` (main.py:157), so they are stored with
dashes, such as `2024-03-05`.

## Model

| member | source | states |
|---|---|---|
| LogIds.CoerceId | main.py:66-68 | A missing ID cell, or one that is not a plain decimal (an optional sign, digits and at most one '.', with at least one digit), is coerced to 0. A plain decimal gives its integer part, truncated toward zero. The script can still fail on an infinite ID; see Findings. |
| LogIds.CoerceIdReadsSignAndZeros | main.py:68 | "+5" is coerced to 5 and "007" to 7. |
| LogIds.CoerceIdReadsFractions | main.py:68 | ".5" is coerced to 0, "5." to 5 and "-2.9" to -2. |
| LogIds.CoerceIdZeroesMalformedSpellings | main.py:68 | "1.2.3", "-", ".", "1-2" and "" are coerced to 0. |
| LogIds.CoerceIdOfInfinity | main.py:68 | An infinity spelling ("inf", "-Infinity", in any case) is coerced to 0. This is the intended behaviour; see Findings. |
| Numbers.InfinityIsNotDecimal | main.py:68 | No infinity spelling is a plain decimal. |
| LogIds.CoerceIdOfWrittenId | main.py:68 | An ID written by the script (an int) is coerced back to the same integer. |
| Numbers.ParseTruncatesTowardZero | main.py:68 | A decimal text with a fraction, such as "-7.9", becomes its integer part truncated toward zero, as `astype(int)` does. |
| Numbers.ParseNumber | main.py:68 | A text is read as a number exactly when it is a plain decimal. Its value is the digits before any '.', negated after a '-'. |
| Numbers.ParseUnsignedIsDecimal | main.py:68 | The unsigned reader accepts exactly the unsigned plain decimals and gives the value of their integer digits. |
| LogIds.CoercedIds | main.py:66-68 | Without an "ID" header there is no coerced column. With one, entry k is row k's ID cell after coercion. |
| LogIds.NextId | main.py:147-151 | The next ID is 1 for an empty log. A non-empty log without an "ID" column fails. Otherwise the result is above every coerced ID, and it is one more than an ID that is present (the maximum). |
| LogIds.Max | main.py:151 | The maximum is an element of the column and no element exceeds it. |
| LogIds.NextIdAfterAppend | main.py:147-156 | Once the row holding an allocated ID is in the log, the next allocation is exactly one higher. Within one session whose next load sees its own appended row, IDs follow in sequence and none repeats. |
| LogRow.FormatDateRoundTrip | main.py:157 | The `%Y-%m-%d` text written for a calendar date reads back as that same date. |
| LogRow.FormatDate | main.py:157 | The date text is the year's digits with no leading zero, '-', two month digits, '-', two day digits, and the digit groups denote the date's year, month and day. From year 1000 on it is exactly 10 characters, as `%Y-%m-%d` writes it. |
| Numbers.NatTextOfFourDigits | main.py:157 | A year from 1000 to 9999 is written with exactly four digits. |
| Numbers.Pad2 | main.py:157 | The month and the day are written as exactly two digits that denote the number. |
| LogRow.MasterField | main.py:143-145 | A master field is the cell of the named exercise's master row, or "" when the name or the field is missing. |
| LogRow.BuildRow | main.py:142-168 | The row has exactly the 12 fallback-header keys. ID holds the allocated ID and Date the `%Y-%m-%d` text of the picked date. A known name gets its master row's exercise_id and target_muscle_group, and "" for a field the row lacks. A name with no master row gets "" for both but keeps its name under Exercise. Set #, Reps, Weight, RPE, Unit, Set Type and Memo hold the form's values. |
| LogRow.Headers | main.py:183-187 | The header is the loaded log's columns when the log is not empty, and the fallback header otherwise. |
| LogRow.Project | main.py:191 | A laid-out row has one value per header, in header order. Entry i is the record's value for header i, or "" when the record lacks it. |
| LogRow.ProjectReadsBack | main.py:189-192 | Under a header without repeats, reading the laid-out row back gives exactly the header's columns. Each holds the record's value or "". Keys not in the header are dropped. |
| LogRow.ProjectReadsBackWhole | main.py:189-192 | A header without repeats that names exactly the record's keys loses nothing. The row reads back as the record. |
| LogRow.RecordOfDistinct | main.py:189-192 | Reading a row back under a header without repeats gives each header its own value. |
| LogRow.RowsToAppend | main.py:189-192 | The loop yields one laid-out row per new record, in order. Each is the header projection of its record. |
| LogRow.SubmitLog | main.py:141-194 | Submitting fails exactly when a non-empty log has no "ID" column. Otherwise the rows passed to append_rows are one row: the built record laid out along the loaded header, with an ID above every loaded ID at each "ID" position. |
| LogRow.LogHeaderCoversRow | main.py:155-187 | Every column of the fallback header is a key of the built row. |
| LogRow.LogHeaderHasNoRepeats | main.py:187 | The fallback header names no column twice. |
| LogRow.EmptyLogAppendsWholeRow | main.py:148-192 | For an empty log the ID is 1 and the fallback header is used. Every header has a value in the row, position 0 holds the ID, and the laid-out row read back under the fallback header is the built row. |
| Reference.Present | main.py:96-97 | `dropna` keeps exactly the present values. |
| Reference.PresentKeepsOrder | main.py:96-97 | `dropna` keeps row order and repeats: it distributes over concatenation. |
| Reference.PresentOfOneCell | main.py:96-97 | A present cell is kept and a missing one is dropped. |
| Reference.CategoryCells | main.py:96-97 | Row k gives its Value cell when its Category is exactly the category, and a missing value otherwise. |
| Reference.CategoryValues | main.py:96-97 | A value is selected exactly when some row has that exact Category and that Value. |
| Reference.CategoryValuesKeepRowOrder | main.py:96-97 | The selected Values follow row order, repeats kept: those of earlier rows come first. |
| Reference.CategoryValuesOfOneRow | main.py:96-97 | One row contributes its Value exactly when its Category matches and the Value is present. |
| Reference.ConstantValues | main.py:95-100 | The call fails exactly when the Category or the Value column is missing. Otherwise the list has no repeats, holds exactly the Values of rows with the exact Category, and keeps first-appearance order. |
| Seqs.Unique | main.py:96-97 | `unique()` leaves no repeats and keeps exactly the same members. |
| Seqs.UniqueKeepsFirstAppearanceOrder | main.py:96-97 | `unique()` lists values in the order of their first appearance. |
| Reference.Names | main.py:105-107 | One exercise_name cell per master row, in row order. |
| Reference.IndexByName | main.py:107 | The index holds exactly the present names, each mapped to the rest of its row. |
| Reference.BuildExerciseMap | main.py:104-110 | Building the index fails exactly when exercise_name is missing or a name repeats. Otherwise every named row is found under its name with the rest of its row, and only present names are keys. |
| Reference.Prepare | main.py:87-110 | An empty master or constants sheet stops the script. Otherwise it succeeds exactly when the needed columns exist and names do not repeat. Then it returns the SetType and Unit lists, the name index, and the exercise list. That list is `unique()` of the present names: no repeats, exactly the present names, in first-appearance order. |
| Order.Sort | main.py:220 | `sorted()` returns the same elements (a permutation) in non-decreasing order. An input without repeats gives an output without repeats. |
| Order.Insert | main.py:220 | Inserting into a sorted list keeps it sorted and adds exactly one element. |
| Order.BelowTotal | main.py:220 | Python's string order is total on distinct strings. |
| Order.BelowTransitive | main.py:220 | Python's string order is transitive. |
| Order.BelowIrreflexive | main.py:220 | No string is below itself. |
| Order.SortedWithoutRepeatsIsAscending | main.py:220 | A sorted list without repeats is strictly ascending. |
| Dashboard.ExerciseText | main.py:220 | `astype(str)` of a row's Exercise cell is the cell's text, or "nan" when it is missing. |
| Dashboard.LoggedExercises | main.py:220 | The exercise list is strictly ascending (sorted, no repeats) and holds exactly the logged names as text. |
| Dashboard.MuscleOptions | main.py:224-226 | The muscle picker offers "All" first, then exactly the present target muscle groups, strictly ascending. |
| Dashboard.KeepMuscleKeepsMatches | main.py:228-238 | The filter keeps exactly the listed names whose master row has the selected group. Names absent from the master are dropped, and an ascending list stays ascending. |
| Dashboard.KeepMuscle | main.py:231-238 | The filter is no longer than its input and keeps only names whose master row has the selected group. |
| Dashboard.FilterByMuscle | main.py:231-238 | The loop builds exactly the order-preserving sublist of matching names. |
| Seqs.FirstIndex | main.py:246 | `list.index` returns a position holding the value, with no earlier occurrence. |
| Dashboard.LastExercise | main.py:244 | The last row's Exercise cell is present exactly when the log has rows and the last one holds an Exercise, and it is that cell. |
| Dashboard.DefaultIndex | main.py:241-246 | The default is the first position of the last logged exercise when it is listed, and 0 otherwise. It is a valid position whenever the list is non-empty. |
| Dashboard.ChooseExercises | main.py:206-246 | An empty log shows nothing. A missing Date, Weight, Reps or Exercise column stops the script. Otherwise the list is strictly ascending and contains only logged names. With "All" or no muscle column the list is unchanged. With a selected group it holds exactly the logged names that target it. The default index is as above. |
| Loading.LoadAsWritten | main.py:60-83 | As written, an infinite ID makes all three loaded sheets empty. Otherwise the sheets load as read. |
| Loading.InfiniteIdStopsScript | main.py:68-90 | A one-row log whose ID is "inf" stops the script as written, whatever the reference sheets hold. Under the intended coercion the next ID would be 1. |

## Left out

- Credentials, the gspread connection and the worksheet reads and appends (main.py:22-83, 173-194) are network I/O. The loaded sheets are parameters. The append is modelled as the rows passed to `append_rows`. A failed append only shows an error and is not modelled.
- EmptyLogAppendsWholeRow: the row reads back whole only under the fallback header. A sheet with a header row and no data rows loads with no columns (main.py:63-64), so the first row is laid out in fallback order even when the sheet's own header has another order. Its values then land under the wrong columns. Nothing in the script writes a header, so on a blank sheet the first appended row becomes the sheet's first row. The model does not carry the sheet's header apart from the loaded records, so neither case is modelled.
- NextIdAfterAppend: concurrent sessions are not modelled. The read cache (main.py:54) is shared by all sessions and is cleared only after a successful append (main.py:197), and entries otherwise live for 5 seconds (main.py:54). Two sessions that both load the log before either appends both allocate the same max+1, so IDs can repeat in the script.
- The 5-second read cache is not modelled as such. The ID and the header both come from the one loaded `Frame`, and nothing is read again before the append, as in the script.
- Streamlit widgets, the form, `st.cache_data.clear`, `st.rerun` and the messages are UI. The picked values are parameters: `LogForm` for the form, and the selected muscle group for `ChooseExercises`.
- The kg conversion and the Epley one-rep-max column (main.py:213-217) are floating point. The script applies `1 + reps/30` with no guard on reps.
- The per-day aggregation, the charts, the metrics and the table display (main.py:250 onwards) are presentation over floats.
- `pd.to_datetime` and the numeric coercion of Weight and Reps (main.py:208-210) only feed the charts. The model keeps only the KeyError they raise when a column is missing.
- CoerceId: numbers in exponent form, surrounding whitespace, underscores, non-ASCII decimal digits (such as "٣" or "３") and "nan" spellings are treated as not numbers, so they give 0. In the script, an exponent form, surrounding whitespace or non-ASCII digits would be read as a number. int64 and float precision limits are not modelled (integers are unbounded).
- CoerceId: an infinity spelling, or an exponent form that overflows such as "1e999", makes the script's `astype(int)` raise. The model coerces infinity spellings to 0 instead; see Findings. Exponent forms are not modelled.
- CoerceId: recent gspread versions drop thousands commas before reading a number, so "1,234" would read as 1234. The model gives 0. The gspread version and its code are not part of this model.
- CoerceId: gspread turns numeric-looking cells into numbers on read. The model keeps every cell as text and coerces only the ID column, so numeric exercise names or categories are compared as text.
- MasterField: a master cell that pandas holds as NaN is modelled as a missing key, so it yields "" rather than NaN.
- ConstantValues: pandas' `unique()` treats 1 and 1.0 as one value. Cells are text here, so "1" and "1.0" stay distinct.
- FormatDate: below year 1000 the year is written unpadded, as the C library's `%Y` does on Linux. Zero-padding there is platform-dependent and not modelled. From year 1000 on, both agree on four digits.
- ChooseExercises: a select box with no options returns None, and the chart code after it (main.py:248 onwards) is not modelled.
- The form's number ranges (weight and RPE limits, reps at least 0, set at least 1) are enforced by the widgets. `LogForm` accepts any values.
- Template records, delete-by-id and field updates do not exist in `main.py` and are not modelled.

## Findings

| source | as written | input that shows it | evidently intended | confidence | as-written member | corrected member |
|---|---|---|---|---|---|---|
| main.py:68 | `to_numeric(errors='coerce')` keeps an infinite value and `fillna(0)` leaves it. `astype(int)` then raises inside `load_data`. main.py:81-83 returns three empty frames, and main.py:87-90 stops the script, so no set can be logged while the cell is there. | An ID cell holding "inf" (or "-Infinity", or "1e999") | A cell that is not a usable number becomes 0, like every other non-number, and allocation goes on | medium; not executed | Loading.InfiniteIdStopsScript | LogIds.CoerceIdOfInfinity |
