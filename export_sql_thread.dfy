/**
 * The export task: one `ExportSqlThread` writes its rows to a fresh sheet,
 * reports progress on its `rows_exported` signal, and, unless it has been
 * told to stop, saves the workbook and asks the system to open it.
 *
 * The Qt thread is not modelled. What another thread can do to a running
 * task is call `stop()`; `Run` takes the index of the first poll of the
 * stop flag that happens after that call (`stopAt`), and the data cell
 * whose write fails inside the row loop, if any (`fault`).
 */
module ExportSql {
  import opened Wrappers
  import opened Cells
  import opened Sheets
  import opened Widths
  import opened Paths
  import opened Pass

  /** Effects on the file system, in the order the task performs them. */
  datatype FileEffect =
    | DeleteOldOutputs(folder: string)
    | SaveWorkbook(path: string, sheetName: string, cells: map<Pos, string>, widths: map<nat, int>)
    | OpenFile(path: string)

  class ExportSqlThread {
    const rows: seq<seq<Cell>>
    const header: seq<string>
    const tableName: string
    /** Set by `stop()`; polled at the safe points of `Run`. */
    var stopEverything: bool
    /** Every value emitted on the `rows_exported` signal, oldest first. */
    var rowsExported: seq<int>
    /** Every file-system effect the task has caused, oldest first. */
    var fileEffects: seq<FileEffect>

    constructor (rows: seq<seq<Cell>>, header: seq<string>, tableName: string)
      ensures this.rows == rows && this.header == header && this.tableName == tableName
      ensures !stopEverything && rowsExported == [] && fileEffects == []
    {
      this.rows := rows;
      this.header := header;
      this.tableName := tableName;
      stopEverything := false;
      rowsExported := [];
      fileEffects := [];
    }

    /** `stop()`: raise the flag; calling it again, or on a finished task, changes nothing more. */
    method Stop()
      modifies this`stopEverything
      ensures stopEverything
    {
      stopEverything := true;
    }

    /**
     * One poll of `stop_everything`, numbered `poll`; a `stop()` from another
     * thread lands just before poll `stopAt`.
     */
    method Poll(poll: nat, stopAt: nat) returns (stopped: bool)
      modifies this`stopEverything
      ensures stopEverything == (old(stopEverything) || poll == stopAt)
      ensures stopped == stopEverything
    {
      if poll == stopAt {
        Stop();
      }
      stopped := stopEverything;
    }

    /**
     * The cell writes of data row `k` into sheet row `k + 1`: every truthy
     * cell is written stripped, falsy cells are skipped. Returns whether a
     * write raised, which ends the row at the failing column.
     */
    method WriteRow(sht: Sheet, k: nat, fault: Option<WriteFault>) returns (failed: bool)
      requires k < |rows|
      requires Matches(sht.cells, header, rows, k, 0)
      modifies sht`cells
      ensures failed == (Hits(rows, fault) && fault.value.row == k)
      ensures Matches(sht.cells, header, rows, k, if failed then fault.value.col else |rows[k]|)
    {
      var row := rows[k];
      var i := 0;
      failed := false;
      while i < |row| && !failed
        invariant 0 <= i <= |row|
        invariant failed ==> Hits(rows, fault) && fault.value == WriteFault(k, i)
        invariant !failed && Hits(rows, fault) && fault.value.row == k ==> i <= fault.value.col
        invariant Matches(sht.cells, header, rows, k, i)
        decreases |row| - i, !failed
      {
        if Truthy(row[i]) {
          if fault == Some(WriteFault(k, i)) {
            failed := true;
          } else {
            CellWritten(sht.cells, header, rows, k, i);
            sht.Write(k + 1, i, Strip(Str(row[i])));
            i := i + 1;
          }
        } else {
          CellSkipped(sht.cells, header, rows, k, i);
          i := i + 1;
        }
      }
    }

    /** Creating the sheet, fitting its columns and writing the header: the part of `run()` before any poll. */
    method BeginSheet() returns (sht: Sheet)
      ensures fresh(sht) && sht.name == tableName
      ensures sht.widths == ColumnWidths(rows, header)
      ensures Matches(sht.cells, header, rows, 0, 0)
    {
      sht := new Sheet(tableName);
      AutofitCols(sht, rows, header);
      var col := 0;
      while col < |header|
        invariant 0 <= col <= |header|
        invariant sht.widths == ColumnWidths(rows, header)
        invariant forall p :: Lookup(sht.cells, p) == if p.row == 0 && p.col < col then Some(header[p.col]) else None
      {
        sht.Write(0, col, header[col]);
        col := col + 1;
      }
      HeaderDone(sht.cells, header, rows);
    }

    /**
     * The row loop with its poll before each row and its report at every
     * 1000th row. It ends cancelled exactly when the stop lands at one of the
     * polls 1 .. `Counted(rows, fault)`; otherwise `n` is the rows counted,
     * including a row whose write failed.
     */
    method RowLoop(sht: Sheet, stopAt: nat, fault: Option<WriteFault>) returns (n: nat, cancelled: bool)
      requires !stopEverything && stopAt > 0
      requires Matches(sht.cells, header, rows, 0, 0)
      modifies this`stopEverything, this`rowsExported, sht`cells
      ensures cancelled == stopEverything
      ensures cancelled <==> stopAt <= Counted(rows, fault)
      ensures cancelled ==>
        && Matches(sht.cells, header, rows, stopAt - 1, 0)
        && rowsExported == old(rowsExported) + Milestones(stopAt - 1)
      ensures !cancelled ==>
        && n == Counted(rows, fault)
        && Matches(sht.cells, header, rows,
                   if Hits(rows, fault) then n - 1 else n, if Hits(rows, fault) then fault.value.col else 0)
        && rowsExported == old(rowsExported) + Milestones(if Hits(rows, fault) then n - 1 else n)
    {
      n := 0;
      cancelled := false;
      var k := 0;
      var failed := false;
      while k < |rows| && !failed
        invariant 0 <= k <= |rows|
        invariant !stopEverything && stopAt > n
        invariant failed ==> Hits(rows, fault) && fault.value.row == k
        invariant !failed && Hits(rows, fault) ==> k <= fault.value.row
        invariant n == if failed then k + 1 else k
        invariant Matches(sht.cells, header, rows, k, if failed then fault.value.col else 0)
        invariant rowsExported == old(rowsExported) + Milestones(k)
        decreases |rows| - k, !failed
      {
        cancelled := Poll(k + 1, stopAt);
        if cancelled {
          return;
        }
        n := n + 1;
        failed := WriteRow(sht, k, fault);
        if !failed {
          RowDone(sht.cells, header, rows, k);
          if n % 1000 == 0 {
            rowsExported := rowsExported + [n];
          }
          k := k + 1;
        }
      }
    }

    /**
     * `run()`: fit the columns, write the header, then the rows polling the
     * stop flag before the loop and before each row, report every 1000th row
     * and the final count, poll once more, and save and open the workbook
     * under `OutputPath(tableName, t)`. The returned sheet is the workbook's
     * only sheet, saved or discarded.
     */
    method Run(stopAt: nat, fault: Option<WriteFault>, t: string) returns (sht: Sheet)
      modifies this`stopEverything, this`rowsExported, this`fileEffects
      ensures fresh(sht) && sht.name == tableName
      ensures sht.widths == ColumnWidths(rows, header)
      ensures var o := Pass.Run(rows, if old(stopEverything) then 0 else stopAt, fault);
        && Matches(sht.cells, header, rows, o.rowsDone, o.colsDone)
        && rowsExported == old(rowsExported) + o.progress
        && stopEverything == !o.saved
        && fileEffects == old(fileEffects) +
             if o.saved then
               [ DeleteOldOutputs(Folder),
                 SaveWorkbook(OutputPath(tableName, t), tableName, sht.cells, sht.widths),
                 OpenFile(OutputPath(tableName, t)) ]
             else []
    {
      sht := BeginSheet();
      var stopped := Poll(0, stopAt);
      if stopped {
        return;
      }
      var n, cancelled := RowLoop(sht, stopAt, fault);
      if cancelled {
        return;
      }
      rowsExported := rowsExported + [n];
      stopped := Poll(n + 1, stopAt);
      if stopped {
        return;
      }
      var dest := OutputPath(tableName, t);
      fileEffects := fileEffects + [DeleteOldOutputs(Folder)];
      fileEffects := fileEffects + [SaveWorkbook(dest, sht.name, sht.cells, sht.widths)];
      fileEffects := fileEffects + [OpenFile(dest)];
    }
  }
}
