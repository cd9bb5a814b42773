# Query exporter: a verified model of the export pass

This project models the query-result exporter of DataWarehouseViewer. A
`QueryExporter` owns the most recently started `ExportSqlThread`. Each new
export first emits `exit`, which stops every earlier thread. The new thread
then writes the rows to a spreadsheet sheet, reports progress on its
`rows_exported` signal, and, if it was not told to stop, saves the workbook
as `output/tmp_<table>_<timestamp>.xls` and asks the system to open it.

The model has these parts:

- `Cells` (cells.dfy): a result cell, either text or NULL (Python `None`). It
  also defines Python's `str()`, its truthiness, and `str.strip()` with
  Python's full set of whitespace characters.
- `Sheets` (sheet.dfy): the worksheet as a class with a map from (row, column)
  to text and a map of column widths.
- `Widths` (widths.dfy): `autofit_cols`. The width table is computed all at
  once as an `Option`, then assigned column by column in a loop.
- `Paths` (paths.dfy): the output path, with the timestamp as a parameter.
- `Pass` (pass.dfy): the reference outcome of one export pass. It fixes which
  cells are written, which progress values are reported and whether the
  workbook is saved, given the poll at which a stop is first seen and the
  cell whose write fails, if any.
- `ExportSql` (export_sql_thread.dfy): the `ExportSqlThread` class. Its
  `Run` method writes into a fresh sheet and appends to its signal and
  file-effect logs. It is proved against `Pass.Run`.
- `QueryExport` (query_exporter.dfy): the `QueryExporter` class, with its
  list of connected threads and its current thread.

Parameters stand in for what is not sequential or not deterministic:

- `stopAt` is the index of the first poll of `stop_everything` that comes
  after another thread's `stop()`.
  - Poll 0 is the check before the row loop.
  - Poll k+1 is the check before data row k.
  - The last poll is the check after the loop.
  - If the flag is already set when `Run` starts, it is seen at poll 0.
- `fault` is the data cell whose write raises inside the row loop.
- `t` is the timestamp string.

## Model

| member | source | states |
|---|---|---|
| `Cells.StripSlice` | query_exporter.py:100 | `strip()` returns a slice of its input. Only whitespace lies outside the slice, the slice starts and ends with non-whitespace, and it is empty exactly when the input is all whitespace |
| `Cells.StripIdempotent` | query_exporter.py:100 | stripping a stripped text changes nothing |
| `Cells.BlankTextIsWrittenEmpty` | query_exporter.py:99-100 | a whitespace-only text cell is truthy, so it is written, and what is written is the empty string |
| `Widths.ColumnMaxSpec` | query_exporter.py:65-66 | `max_col_width` succeeds exactly when there are rows and every row has the column. It is then an upper bound on every cell's `len(str(...))` and equals one of them |
| `Widths.SpecsUpToSpec` | query_exporter.py:67-71 | the first n entries of `col_specs` exist exactly when every row and the header have n columns. Entry ix is then max(longest cell of column ix, header length) |
| `Widths.ColSpecsAllOrNothing` | query_exporter.py:64-75 | the width table is built exactly when there is a row, no row is shorter than `rows[0]` and the header is not shorter. Otherwise no width is set at all |
| `Widths.ColumnWidthsSpec` | query_exporter.py:68-73 | the set widths are exactly the columns of `rows[0]`. Each is `min(max(longest cell, header length), 30) * 320`, lies in [0, 9600], and is at least 320 times the capped header length and the capped length of every cell |
| `Widths.AutofitCols` | query_exporter.py:63-75 | the new width map is the old one overridden by the computed widths. When the table cannot be built, nothing changes |
| `Paths.SanitizeSpec` | query_exporter.py:109 | `replace(' ', '_')` keeps the length, turns each space into `_` and keeps every other character |
| `Paths.OutputPathShape` | query_exporter.py:108-110 | the path is `"output/tmp_" + sanitized name + "_" + t + ".xls"`. The part taken from the table name holds no space, and the whole path holds none when `t` holds none |
| `Paths.OutputPathDistinguishesTimestamps` | query_exporter.py:108-110 | with the same table name, equal paths mean equal timestamps |
| `Paths.SanitizeCollides` | query_exporter.py:109 | two names sanitize alike exactly when they have the same length and, at every position, agree or both hold a space or an underscore |
| `Paths.OutputPathsCollide` | query_exporter.py:108-110 | two exports in the same second share a file exactly when their table names sanitize alike |
| `Paths.SpaceAndUnderscoreShareAPath` | query_exporter.py:109-110 | example: "T 1" and "T_1" map to the same file `output/tmp_T_1_<t>.xls` |
| `Pass.MilestonesClosedForm` | query_exporter.py:101-102 | the values reported inside the loop after n rows are exactly 1000, 2000, …, 1000·(n div 1000) |
| `Pass.MilestonesBounded` | query_exporter.py:101-102 | the in-loop reports rise strictly, are positive multiples of 1000 and never exceed the row count |
| `Pass.CompletePass` | query_exporter.py:92-113 | with no cancellation and no failing write, every row is written, the log is 1000, …, 1000·(N div 1000) followed by N, and the workbook is saved |
| `Pass.ProgressOrdered` | query_exporter.py:97-106 | the log never decreases and stays within [0, rows counted]. Every value before the last is a multiple of 1000, and a saved pass ends with the number of rows counted |
| `Pass.FinalReportRepeats` | query_exporter.py:101-105 | when N is a positive multiple of 1000, N is reported twice, so the log is not strictly increasing |
| `Pass.CancelledInLoop` | query_exporter.py:92-96 | a stop seen at the poll before the loop or before a row leaves no final report and no save. The rows before that poll stay written, and only multiples of 1000 up to them were reported |
| `Pass.CancelledAfterLoop` | query_exporter.py:105-107 | a stop seen only after the loop still reports the final count but does not save |
| `Pass.FailedWriteKeepsRows` | query_exporter.py:94-105 | a failing write ends the loop. Earlier rows, and the cells of its own row before the failing column, stay written. The final report counts the failing row, and the workbook is still saved |
| `Pass.WrittenCells` | query_exporter.py:89-100 | every data cell on the sheet comes from the truthy source cell of data row `p.row - 1`, same column. It is a slice of that cell's text, is already stripped, and no cell lies below the last data row |
| `ExportSql.ExportSqlThread.constructor` | query_exporter.py:47-58 | a new thread holds the request, its stop flag is clear and its logs are empty |
| `ExportSql.ExportSqlThread.Stop` | query_exporter.py:119-120 | afterwards the flag is set, whatever it was before (so `stop` is idempotent), and nothing else changes |
| `ExportSql.ExportSqlThread.Poll` | query_exporter.py:93-106 | one poll of the flag, standing for each of the checks at lines 93, 96 and 106: the flag reads as set exactly when it already was or the concurrent stop lands at this poll |
| `ExportSql.ExportSqlThread.WriteRow` | query_exporter.py:98-100 | row k's truthy cells are written stripped at sheet row k+1 and its falsy cells are skipped. A failing write stops the row at that column, and nothing else changes |
| `ExportSql.ExportSqlThread.BeginSheet` | query_exporter.py:82-91 | a fresh sheet named after the table, with the auto-fit widths and exactly the header labels at (0, i) |
| `ExportSql.ExportSqlThread.RowLoop` | query_exporter.py:92-104 | the loop is cancelled exactly when the stop lands at a poll before one of the rows counted. Its cells and reports are then those of the rows before that poll; otherwise it counts every row up to and including a failing one |
| `ExportSql.ExportSqlThread.Run` | query_exporter.py:61-113 | the sheet's cells, the `rows_exported` log, the final flag and the save/open effects are exactly those of `Pass.Run`. Saving happens exactly when no stop was seen |
| `QueryExport.QueryExporter.constructor` | query_exporter.py:25-28 | no current thread and no connections |
| `QueryExport.QueryExporter.EmitExit` | query_exporter.py:35 | every connected thread has its stop flag set |
| `QueryExport.QueryExporter.StartExport` | query_exporter.py:30-40 | every earlier thread is stopped. The new thread is fresh, not stopped, current, and appended to the connections, which grow by exactly one |

The reference definitions the contracts are stated against are functions
without contracts of their own:

- `Cells.Str`, `Cells.Truthy`, `Cells.Strip` (line 99-100).
- `Widths.ColumnMax`, `Widths.ColSpecs`, `Widths.ColumnWidths` (lines 65-73).
- `Paths.OutputPath` (lines 108-110).
- `Pass.Milestones` (lines 101-102).
- `Pass.Run`: the outcome of a pass (lines 92-107).
- `Pass.Written`: the sheet's contents after a given number of rows and columns (lines 89-100).

## Notes on behaviour

- When the row count N is a positive multiple of 1000, N is reported twice:
  once inside the loop and once after it (lines 101-105,
  `Pass.FinalReportRepeats`). So the progress log never decreases but is
  not strictly increasing.
- The stop flag is polled at three places: before the row loop (line 93),
  before each row (line 96) and after the loop (line 106).
- `None` and `""` cells leave no entry. A whitespace-only text cell is
  truthy, so it is written, as `""` (lines 99-100,
  `Cells.BlankTextIsWrittenEmpty`).

## Left out

- Qt threads, signal delivery, `exit()`/`quit()` and `thread.start()` (lines 15-19, 40, 121-122) are concurrency. A stop from another thread during `Run` is modelled only as `Run`'s `stopAt` parameter. A stop that races with a save already in progress cannot be stated sequentially.
- The relaying of each thread's `error` and `rows_exported` signals to the coordinator's own signals (lines 38-39) depends on asynchronous delivery. The model keeps each thread's own log and the list of connected threads, whose signals stay relayed. It does not model the interleaved outward stream.
- The xlwt library (workbook, `add_sheet`, `easyxf` header style, `wb.save`; lines 82-88, 112) is a foreign library. The sheet is an abstract map, and saving is recorded as an effect carrying the path and the sheet's contents.
- The outer `except` that turns a failure into an `error` signal (lines 114-117) only fires on failures of the file system, the spreadsheet library or process launch, which are not modelled. So the model never emits `error`, and it does not format the message that embeds the rows.
- `os.mkdir` (lines 79-80), `delete_old_outputs` (line 111) and `Popen` (line 113) are external effects. Pruning and opening are recorded as effects in order, and folder creation is not recorded.
- `time.strftime` (line 108) reads the clock, so the timestamp is the parameter `t`.
- The `log_error` decorator (line 60) and the `print` of a width failure (line 75) are logging only.
- The `except: pass` of the row loop (lines 103-104) is modelled only for a failing write of a data cell, as the `fault` parameter. Other exceptions inside the loop are not modelled.
- Cells are text or `None` only. Numbers and other Python values that `str()` would render are not modelled.
- `Paths.Join` models POSIX `os.path.join`. The Windows separator is not modelled.
