# Maquiladora payroll page: shift hours, column suggestion, hours import, employee guard

A verified Dafny model of the rules in the payroll page of a textile
maquiladora (`app.py`, a Streamlit page). Four pieces of the page are modelled:

- **Shift hours** (`calcular_horas`, module `ShiftHours`). An entry/exit pair of clock
  readings becomes hours worked. A missing punch or an unreadable one gives 0 hours.
  An exit earlier than the entry is read as being on the next day. Times of day are
  whole seconds since midnight. Hours are the exact `real` quotient of seconds by 3600.
- **Column suggestion** (`sugerir_columna`, module `ColumnSuggestion`). This is the first
  sheet column whose header matches a pattern, or column 0 when none matches. The
  regular-expression search is a predicate parameter.
- **Protected-Excel import** (module `HoursImport`). Hours are computed for every sheet
  row. Rows with a missing id or date are then dropped, and the ids are converted to
  integers (truncation toward zero). If one id is not a number, the whole import is
  refused. The surviving records are appended after the existing hours log. Duplicates
  are not merged.
- **New-employee form** (module `Roster`). A name that is blank after Python's `strip()`
  is refused first. An id already in the catalogue is refused next. Otherwise the new
  row is built.

The class `PayrollPage.PayrollData` holds the page's two tables, the employee catalogue
(`empleados`) and the hours log (`registros`). Its two methods are the form submit and
the import.

Reading a cell as a time (`pd.to_datetime(...).time()`) and reading a cell as a date
(`errors="coerce"`) are inputs to the model. A punch is `Blank`, `Unreadable` or
`Clock(t)`. A row's date is `Some(d)`, or `None` when the date reader produced no date.

## Model

| member | source | states |
|---|---|---|
| ShiftHours.WorkedSeconds | app.py:154-167 | seconds worked are in [0, 86400); they are positive only for two clock readings that differ |
| ShiftHours.WorkedHours | app.py:154-167 | hours worked are at least 0 and less than 24 |
| ShiftHours.IncompleteShiftWorksNothing | app.py:155-167 | a missing (`isna`) or unreadable entry or exit gives 0 hours, not an error |
| ShiftHours.SameDayShift | app.py:160-165 | exit at or after entry: hours = (exit − entry)/3600 exactly; equal readings give 0, not 24 |
| ShiftHours.OvernightShift | app.py:162-165 | exit before entry: hours = ((86400 − entry) + exit)/3600, strictly between 0 and 24 |
| ShiftHours.WorkedIsForwardDistance | app.py:160-165 | for two clock readings, seconds worked = (exit − entry) mod 86400, the forward distance on the 24-hour dial |
| ShiftHours.ExitReachedFromEntry | app.py:162-165 | the clock moved forward from the entry by the time worked shows the exit, and no shorter move does |
| ColumnSuggestion.SuggestColumn | app.py:127-131 | returns the index of the first matching header when one matches and 0 otherwise, so the index is valid whenever there is a column |
| Roster.TrimStart | app.py:55 | result is a suffix of the input, everything removed is white space, and the result does not start with white space |
| Roster.TrimEnd | app.py:55 | result is a prefix of the input, everything removed is white space, and the result does not end with white space |
| Roster.StripEmptyIffAllSpace | app.py:55 | `name.strip() == ""` exactly when every character of the name is white space |
| Roster.WithId | app.py:59 | the filtered catalogue holds exactly the rows whose id equals the submitted id |
| Roster.NewEmployee | app.py:54-64 | refused as a blank name exactly when the name is all white space; refused as a duplicate exactly when the name is not blank and the id is in the catalogue; otherwise the new row (id, name, wage) is built |
| Roster.AcceptedEmployeeKeepsIdsUnique | app.py:58-64 | appending a row whose id is not yet in the catalogue (what the guard demands) keeps catalogue ids unique, and the id is then found |
| HoursImport.WithHours | app.py:176 | one cleaned row per sheet row, with the same id and date and the shift's hours |
| HoursImport.DropIncomplete | app.py:178 | a row is kept exactly when it was in the table and has both an id and a date |
| HoursImport.DropIncompleteSplits | app.py:178 | dropping rows keeps the survivors in their original order (the filter distributes over concatenation) |
| HoursImport.WithHoursSplits | app.py:176 | hours are computed row by row (the map distributes over concatenation) |
| HoursImport.HoursBeforeFilterAgree | app.py:176-178 | computing hours before dropping rows gives the same table as dropping the sheet rows first |
| HoursImport.TruncateToInt | app.py:179 | integer conversion truncates toward zero: the integer lies within 1 of the number, on the zero side |
| HoursImport.CastIds | app.py:179 | conversion succeeds exactly when every id is a number; it then yields one record per row, in order, with the truncated id, the date and the hours |
| HoursImport.CastIdsSplits | app.py:179 | conversion of a split table succeeds exactly when both parts succeed; the records are then the parts' records in order |
| HoursImport.NormalizeSplits | app.py:169-179 | importing a sheet is importing its parts in order; the sheet is refused exactly when a part is |
| HoursImport.NormalizeOneRow | app.py:169-179 | one row imports nothing when its id or date is missing, is refused when its id is not a number, and otherwise gives one record (truncated id, date, shift hours) |
| HoursImport.AppendDoesNotMerge | app.py:187-190 | after an append, each (worker, date) pair has the old count of log entries plus the appended count |
| PayrollPage.PayrollData.constructor | app.py:27-28 | the tables start as loaded |
| PayrollPage.PayrollData.AddEmployee | app.py:54-64 | the guard's verdict is returned; an accepted row is appended; the hours log is unchanged; unique ids stay unique; an accepted id is then in the catalogue |
| PayrollPage.PayrollData.ImportSheet | app.py:169-190 | the cleaned records are returned; only when the button was pressed and cleaning succeeded are they appended after the unchanged old log; no (worker, date) count decreases; the catalogue is unchanged |

## Left out

- Streamlit presentation: page setup, tabs, forms, selectboxes, previews, buttons and messages (app.py:13, 30-52, 94-123, 181-194). The button press is a boolean parameter of `ImportSheet`.
- File input and output: `cargar_csv`, `guardar_csv`, reading the workbook and its sheets, and the Excel report download (app.py:17-28, 78-90, 110-120). The tables are given to the constructor, and the write at app.py:190 is not modelled. A workbook that cannot be opened is an I/O failure and is not modelled.
- Reading times and dates (`pd.to_datetime`) and the regular-expression engine (app.py:129, 160-161, 171) are inputs: a `Punch`, an `Option<Date>`, and a `matches` predicate. The four header patterns at app.py:136-151 are therefore not modelled.
- ShiftHours.WorkedSeconds: clock readings are whole seconds, so sub-second parts of a time are not modelled. Hours are exact reals, not floats, and the display rounding at app.py:71 is not modelled.
- HoursImport.TruncateToInt: the 64-bit range of the integer conversion is not modelled. An id cell is a number, a missing value, or a value the conversion rejects; which raw cell text falls into which class belongs to the sheet reader.
- What pandas does when the sheet has no rows at all is not modelled: the model imports nothing.
- PayrollPage.PayrollData.AddEmployee: the shown text ends at app.py:64, while the new row is still being built. The model assumes the row is appended at the end of the catalogue, like the hours log at app.py:189. It also assumes the name is stored as typed. The catalogue file write is not modelled.
- The payroll tab (app.py:65-75) and the ZKTeco attendance-report import (app.py:196-222) are cut off in the source text. Their behaviour cannot be read from it, so the attendance-report parsing is not part of this model.
