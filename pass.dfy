/**
 * What one export pass produces, as a function of the rows, of the poll at
 * which a concurrent `stop()` is first seen, and of the data cell (if any)
 * whose write raises inside the row loop.
 *
 * The flag `stop_everything` is polled at three places: poll 0 just before
 * the row loop, poll k+1 just before data row k, and one poll after the row
 * loop. A pass that sees the flag at poll 0 or in the loop reports no final
 * progress and does not save; one that sees it only at the last poll reports
 * the final count but does not save.
 */
module Pass {
  import opened Wrappers
  import opened Cells
  import opened Sheets

  /** Every 1000th row counted so far: the `rows_exported` values emitted inside the loop. */
  function Milestones(n: nat): seq<int>
  {
    if n == 0 then [] else Milestones(n - 1) + (if n % 1000 == 0 then [n] else [])
  }

  /** The milestones up to `n` are exactly 1000, 2000, ..., 1000 * (n / 1000). */
  lemma {:induction false} MilestonesClosedForm(n: nat)
    ensures |Milestones(n)| == n / 1000
    ensures forall j :: 0 <= j < |Milestones(n)| ==> Milestones(n)[j] == 1000 * (j + 1)
  {
    if n > 0 {
      MilestonesClosedForm(n - 1);
    }
  }

  /** The spreadsheet library raises when the data cell at `row` (0-based data row), `col` is written. */
  datatype WriteFault = WriteFault(row: nat, col: nat)

  /** The fault fires: the cell exists and is truthy, so the loop really writes it. */
  predicate Hits(rows: seq<seq<Cell>>, fault: Option<WriteFault>)
  {
    && fault.Some?
    && fault.value.row < |rows|
    && fault.value.col < |rows[fault.value.row]|
    && Truthy(rows[fault.value.row][fault.value.col])
  }

  /** The value of the counter `n` when the row loop ends without cancellation. */
  function Counted(rows: seq<seq<Cell>>, fault: Option<WriteFault>): nat
  {
    if Hits(rows, fault) then fault.value.row + 1 else |rows|
  }

  /**
   * The outcome of a pass: data rows 0 .. rowsDone-1 written in full, and
   * columns 0 .. colsDone-1 of row rowsDone; the `rows_exported` values; and
   * whether the workbook is saved and opened.
   */
  datatype Outcome = Outcome(rowsDone: nat, colsDone: nat, progress: seq<int>, saved: bool)

  /** The outcome when the flag is first seen at poll `stopAt` (a value past the last poll: never). */
  function Run(rows: seq<seq<Cell>>, stopAt: nat, fault: Option<WriteFault>): Outcome
  {
    var m := Counted(rows, fault);
    if stopAt == 0 then Outcome(0, 0, [], false)
    else if stopAt <= m then Outcome(stopAt - 1, 0, Milestones(stopAt - 1), false)
    else if Hits(rows, fault) then Outcome(m - 1, fault.value.col, Milestones(m - 1) + [m], stopAt > m + 1)
    else Outcome(m, 0, Milestones(m) + [m], stopAt > m + 1)
  }

  /**
   * The sheet after the header and the given part of the data have been
   * written: header label i at (0, i); a truthy cell `val` of data row k at
   * (k + 1, i) as `str(val).strip()`; nothing anywhere else.
   */
  function Written(header: seq<string>, rows: seq<seq<Cell>>, k: nat, i: nat, p: Pos): Option<string>
  {
    if p.row == 0 then
      if p.col < |header| then Some(header[p.col]) else None
    else
      var r := p.row - 1;
      if r < |rows| && p.col < |rows[r]| && (r < k || (r == k && p.col < i)) && Truthy(rows[r][p.col])
      then Some(Strip(Str(rows[r][p.col])))
      else None
  }

  /** The sheet's cells are exactly `Written(header, rows, k, i, _)`. */
  ghost predicate Matches(cells: map<Pos, string>, header: seq<string>, rows: seq<seq<Cell>>, k: nat, i: nat)
  {
    forall p :: Lookup(cells, p) == Written(header, rows, k, i, p)
  }

  lemma HeaderDone(cells: map<Pos, string>, header: seq<string>, rows: seq<seq<Cell>>)
    requires forall p :: Lookup(cells, p) == if p.row == 0 && p.col < |header| then Some(header[p.col]) else None
    ensures Matches(cells, header, rows, 0, 0)
  {
  }

  lemma CellWritten(cells: map<Pos, string>, header: seq<string>, rows: seq<seq<Cell>>, k: nat, i: nat)
    requires k < |rows| && i < |rows[k]| && Truthy(rows[k][i])
    requires Matches(cells, header, rows, k, i)
    ensures Matches(cells[Pos(k + 1, i) := Strip(Str(rows[k][i]))], header, rows, k, i + 1)
  {
    var cells' := cells[Pos(k + 1, i) := Strip(Str(rows[k][i]))];
    forall p ensures Lookup(cells', p) == Written(header, rows, k, i + 1, p) {
      if p != Pos(k + 1, i) {
        assert Lookup(cells', p) == Lookup(cells, p);
      }
    }
  }

  lemma CellSkipped(cells: map<Pos, string>, header: seq<string>, rows: seq<seq<Cell>>, k: nat, i: nat)
    requires k < |rows| && i < |rows[k]| && !Truthy(rows[k][i])
    requires Matches(cells, header, rows, k, i)
    ensures Matches(cells, header, rows, k, i + 1)
  {
  }

  lemma RowDone(cells: map<Pos, string>, header: seq<string>, rows: seq<seq<Cell>>, k: nat)
    requires k < |rows|
    requires Matches(cells, header, rows, k, |rows[k]|)
    ensures Matches(cells, header, rows, k + 1, 0)
  {
  }

  // ---------------------------------------------------------------------
  // Properties of the outcome

  /**
   * Without cancellation or a failing write, every row is written and the
   * progress log is 1000, 2000, ..., 1000 * (N / 1000) followed by N.
   */
  lemma CompletePass(rows: seq<seq<Cell>>, stopAt: nat, fault: Option<WriteFault>)
    requires !Hits(rows, fault) && stopAt > |rows| + 1
    ensures var o := Run(rows, stopAt, fault);
      && o.saved && o.rowsDone == |rows| && o.colsDone == 0
      && |o.progress| == |rows| / 1000 + 1
      && (forall j :: 0 <= j < |rows| / 1000 ==> o.progress[j] == 1000 * (j + 1))
      && o.progress[|o.progress| - 1] == |rows|
  {
    MilestonesClosedForm(|rows|);
  }

  /** The in-loop reports up to `c` rise strictly, are positive multiples of 1000 and do not exceed `c`. */
  lemma {:induction false} MilestonesBounded(c: nat)
    ensures forall j :: 0 <= j < |Milestones(c)| ==>
      0 < Milestones(c)[j] <= c && Milestones(c)[j] % 1000 == 0
    ensures forall i, j :: 0 <= i < j < |Milestones(c)| ==> Milestones(c)[i] < Milestones(c)[j]
  {
    MilestonesClosedForm(c);
    forall j | 0 <= j < |Milestones(c)| ensures Milestones(c)[j] <= c {
      assert j + 1 <= c / 1000;
      assert 1000 * (j + 1) <= 1000 * (c / 1000) <= c;
    }
  }

  /**
   * The progress log never decreases, every value is between 0 and the
   * number of rows counted, and every value but a final one is a multiple of
   * 1000; the workbook is saved only after a final value equal to the rows counted.
   */
  lemma ProgressOrdered(rows: seq<seq<Cell>>, stopAt: nat, fault: Option<WriteFault>)
    ensures var o := Run(rows, stopAt, fault);
      && (forall i, j :: 0 <= i <= j < |o.progress| ==> o.progress[i] <= o.progress[j])
      && (forall j :: 0 <= j < |o.progress| ==> 0 <= o.progress[j] <= Counted(rows, fault))
      && (forall j :: 0 <= j < |o.progress| - 1 ==> o.progress[j] % 1000 == 0)
      && (o.saved ==> o.progress != [] && o.progress[|o.progress| - 1] == Counted(rows, fault))
  {
    var o := Run(rows, stopAt, fault);
    var m := Counted(rows, fault);
    var c := o.rowsDone;
    var ms := Milestones(c);
    MilestonesBounded(c);
    assert c <= m;
    if o.progress != ms {
      assert o.progress == ms + [m];
      forall i, j | 0 <= i <= j < |o.progress| ensures o.progress[i] <= o.progress[j] {
        if j == |ms| {
          assert o.progress[j] == m;
          if i < |ms| {
            assert o.progress[i] == ms[i];
          }
        } else {
          assert o.progress[i] == ms[i] && o.progress[j] == ms[j];
        }
      }
    }
  }

  /**
   * The log is not strictly increasing: when the row count N is a positive
   * multiple of 1000, N is reported twice, once in the loop and once after it.
   */
  lemma FinalReportRepeats(rows: seq<seq<Cell>>, stopAt: nat, fault: Option<WriteFault>)
    requires !Hits(rows, fault) && stopAt > |rows| && |rows| > 0 && |rows| % 1000 == 0
    ensures var p := Run(rows, stopAt, fault).progress;
      |p| >= 2 && p[|p| - 2] == p[|p| - 1] == |rows|
  {
    MilestonesClosedForm(|rows|);
  }

  /**
   * Cancellation seen before the loop or before a row: no final progress
   * value and no save; the rows before that poll are written, and what was
   * reported is only multiples of 1000 not beyond them.
   */
  lemma CancelledInLoop(rows: seq<seq<Cell>>, stopAt: nat, fault: Option<WriteFault>)
    requires stopAt <= Counted(rows, fault)
    ensures var o := Run(rows, stopAt, fault);
      && !o.saved && o.colsDone == 0
      && o.rowsDone == (if stopAt == 0 then 0 else stopAt - 1)
      && |o.progress| == o.rowsDone / 1000
      && forall j :: 0 <= j < |o.progress| ==> o.progress[j] % 1000 == 0 && 0 < o.progress[j] <= o.rowsDone
  {
    var o := Run(rows, stopAt, fault);
    MilestonesClosedForm(o.rowsDone);
    forall j | 0 <= j < |o.progress| ensures o.progress[j] <= o.rowsDone {
      assert j < o.rowsDone / 1000;
    }
  }

  /** Cancellation seen only after the loop: the final count is reported, but nothing is saved. */
  lemma CancelledAfterLoop(rows: seq<seq<Cell>>, fault: Option<WriteFault>)
    ensures var o := Run(rows, Counted(rows, fault) + 1, fault);
      && !o.saved && o.progress != [] && o.progress[|o.progress| - 1] == Counted(rows, fault)
  {
  }

  /**
   * A failing write ends the loop: the rows before it and the cells of its
   * row before the failing column stay written, the final report counts the
   * failing row too, and the workbook is still saved when not cancelled.
   */
  lemma FailedWriteKeepsRows(rows: seq<seq<Cell>>, stopAt: nat, fault: Option<WriteFault>)
    requires Hits(rows, fault) && stopAt > fault.value.row + 2
    ensures var o := Run(rows, stopAt, fault);
      && o.saved && o.rowsDone == fault.value.row && o.colsDone == fault.value.col
      && o.progress[|o.progress| - 1] == fault.value.row + 1
      && |o.progress| == fault.value.row / 1000 + 1
  {
    MilestonesClosedForm(fault.value.row);
  }

  /**
   * Every data cell on the sheet comes from a truthy source cell of the same
   * row and column, is a slice s[a..b] of its rendering, is already stripped,
   * and no cell lies below the last data row.
   */
  lemma WrittenCells(header: seq<string>, rows: seq<seq<Cell>>, k: nat, i: nat, p: Pos) returns (a: nat, b: nat)
    requires p.row > 0 && Written(header, rows, k, i, p).Some?
    ensures var v := Written(header, rows, k, i, p).value;
      && p.row <= |rows| && p.col < |rows[p.row - 1]| && Truthy(rows[p.row - 1][p.col])
      && v == Strip(v)
      && a <= b <= |Str(rows[p.row - 1][p.col])| && v == Str(rows[p.row - 1][p.col])[a..b]
  {
    var s := Str(rows[p.row - 1][p.col]);
    StripIdempotent(s);
    a, b := StripSlice(s);
  }
}
