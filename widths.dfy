/**
 * Column auto-fit: the width of column `ix` is the longest rendered cell of
 * that column or the header label, whichever is longer, capped at 30
 * characters and scaled by 320 spreadsheet units per character. Any
 * IndexError while building the table of widths aborts the whole table, so
 * either every column gets a width or none does.
 */
module Widths {
  import opened Wrappers
  import opened Cells
  import opened Sheets

  const MaxWidthChars := 30
  const UnitsPerChar := 320

  function Max(a: nat, b: nat): nat { if a < b then b else a }
  function Min(a: nat, b: nat): nat { if a < b then a else b }

  /** `max_col_width(ix, rows)`: None when `rows` is empty or some row has no column `ix`. */
  function ColumnMax(rows: seq<seq<Cell>>, ix: nat): Option<nat>
  {
    if |rows| == 0 || ix >= |rows[0]| then None
    else if |rows| == 1 then Some(|Str(rows[0][ix])|)
    else match ColumnMax(rows[1..], ix)
      case None => None
      case Some(m) => Some(Max(|Str(rows[0][ix])|, m))
  }

  /** The entry for column `ix` of `col_specs`: None when reading the column or the header raises. */
  function ColumnSpec(rows: seq<seq<Cell>>, header: seq<string>, ix: nat): Option<nat>
  {
    match ColumnMax(rows, ix)
    case None => None
    case Some(m) => if ix < |header| then Some(Max(m, |header[ix]|)) else None
  }

  /** The first `n` entries of `col_specs`, built in order; one failing entry fails them all. */
  function SpecsUpTo(rows: seq<seq<Cell>>, header: seq<string>, n: nat): Option<seq<nat>>
  {
    if n == 0 then Some([])
    else match SpecsUpTo(rows, header, n - 1)
      case None => None
      case Some(s) =>
        match ColumnSpec(rows, header, n - 1)
        case None => None
        case Some(w) => Some(s + [w])
  }

  /** The dict comprehension `col_specs`, one entry per column of `rows[0]`; `rows[0]` raises on no rows. */
  function ColSpecs(rows: seq<seq<Cell>>, header: seq<string>): Option<seq<nat>>
  {
    if |rows| == 0 then None else SpecsUpTo(rows, header, |rows[0]|)
  }

  /** `min(width, 30) * 320` */
  function Scale(width: nat): int
  {
    Min(width, MaxWidthChars) * UnitsPerChar
  }

  /** The widths `autofit_cols` assigns: none at all when `col_specs` could not be built. */
  function ColumnWidths(rows: seq<seq<Cell>>, header: seq<string>): map<nat, int>
  {
    match ColSpecs(rows, header)
    case None => map[]
    case Some(s) => map ix: nat | ix < |s| :: Scale(s[ix])
  }

  /**
   * The column maximum exists exactly when there are rows and each has a
   * column `ix`; it bounds every cell's rendered length and is reached by one of them.
   */
  lemma {:induction false} ColumnMaxSpec(rows: seq<seq<Cell>>, ix: nat)
    ensures ColumnMax(rows, ix).Some? <==> |rows| > 0 && forall k :: 0 <= k < |rows| ==> ix < |rows[k]|
    ensures ColumnMax(rows, ix).Some? ==>
      (forall k :: 0 <= k < |rows| ==> |Str(rows[k][ix])| <= ColumnMax(rows, ix).value)
      && (exists k :: 0 <= k < |rows| && |Str(rows[k][ix])| == ColumnMax(rows, ix).value)
  {
    if |rows| > 1 && ix < |rows[0]| {
      var tail := rows[1..];
      ColumnMaxSpec(tail, ix);
      assert forall k :: 1 <= k < |rows| ==> rows[k] == tail[k - 1];
      if ColumnMax(tail, ix).Some? {
        var m := ColumnMax(tail, ix).value;
        var k :| 0 <= k < |tail| && |Str(tail[k][ix])| == m;
        assert rows[k + 1] == tail[k];
        if |Str(rows[0][ix])| < m {
          assert |Str(rows[k + 1][ix])| == ColumnMax(rows, ix).value;
        }
      } else {
        var k :| 0 <= k < |tail| && ix >= |tail[k]|;
        assert rows[k + 1] == tail[k];
      }
    }
  }

  /**
   * `SpecsUpTo(n)` succeeds exactly when every row has at least `n` columns
   * and so does the header, and then holds one entry per column, each the
   * larger of that column's maximum cell length and its header label length.
   */
  lemma {:induction false} SpecsUpToSpec(rows: seq<seq<Cell>>, header: seq<string>, n: nat)
    requires |rows| > 0
    ensures SpecsUpTo(rows, header, n).Some? <==>
      n <= |header| && forall k :: 0 <= k < |rows| ==> n <= |rows[k]|
    ensures SpecsUpTo(rows, header, n).Some? ==>
      var s := SpecsUpTo(rows, header, n).value;
      |s| == n && forall ix :: 0 <= ix < n ==>
        ColumnMax(rows, ix).Some? && s[ix] == Max(ColumnMax(rows, ix).value, |header[ix]|)
  {
    if n > 0 {
      SpecsUpToSpec(rows, header, n - 1);
      ColumnMaxSpec(rows, n - 1);
      if SpecsUpTo(rows, header, n - 1).Some? && ColumnMax(rows, n - 1).None? {
        var k :| 0 <= k < |rows| && n - 1 >= |rows[k]|;
      }
    }
  }

  /**
   * All or nothing: `col_specs` is built exactly when there is a row, no row
   * is shorter than `rows[0]` and the header is not shorter than `rows[0]`.
   */
  lemma ColSpecsAllOrNothing(rows: seq<seq<Cell>>, header: seq<string>)
    ensures ColSpecs(rows, header).Some? <==>
      |rows| > 0 && |rows[0]| <= |header| && forall k :: 0 <= k < |rows| ==> |rows[0]| <= |rows[k]|
    ensures ColumnWidths(rows, header) == map[] <== ColSpecs(rows, header).None?
  {
    if |rows| > 0 {
      SpecsUpToSpec(rows, header, |rows[0]|);
    }
  }

  /**
   * Every width that is set belongs to a column of `rows[0]` and equals
   * `min(max(longest cell, header length), 30) * 320`; so it lies in
   * [0, 9600], is at least the capped header length times 320 and at least
   * each capped cell length times 320. When the table is built every column
   * of `rows[0]` gets a width.
   */
  lemma ColumnWidthsSpec(rows: seq<seq<Cell>>, header: seq<string>)
    ensures var w := ColumnWidths(rows, header);
      (ColSpecs(rows, header).Some? ==> forall ix: nat :: ix in w <==> ix < |rows[0]|)
      && forall ix :: ix in w ==>
        && |rows| > 0 && ix < |rows[0]| && ix < |header|
        && (forall k :: 0 <= k < |rows| ==> ix < |rows[k]|)
        && ColumnMax(rows, ix).Some?
        && w[ix] == Min(Max(ColumnMax(rows, ix).value, |header[ix]|), MaxWidthChars) * UnitsPerChar
        && 0 <= w[ix] <= 9600
        && w[ix] >= Min(|header[ix]|, MaxWidthChars) * UnitsPerChar
        && (forall k :: 0 <= k < |rows| ==> w[ix] >= Min(|Str(rows[k][ix])|, MaxWidthChars) * UnitsPerChar)
  {
    var w := ColumnWidths(rows, header);
    if ColSpecs(rows, header).Some? {
      SpecsUpToSpec(rows, header, |rows[0]|);
      var s := ColSpecs(rows, header).value;
      forall ix | ix in w
        ensures forall k :: 0 <= k < |rows| ==> ix < |rows[k]| && w[ix] >= Min(|Str(rows[k][ix])|, MaxWidthChars) * UnitsPerChar
      {
        ColumnMaxSpec(rows, ix);
      }
    }
  }

  /**
   * `autofit_cols(sheet)`: assign the computed width to each column in
   * order; when the table cannot be built nothing is assigned and the export
   * carries on.
   */
  method AutofitCols(sht: Sheet, rows: seq<seq<Cell>>, header: seq<string>)
    modifies sht`widths
    ensures sht.widths == old(sht.widths) + ColumnWidths(rows, header)
  {
    var specs := ColSpecs(rows, header);
    if specs.Some? {
      var s := specs.value;
      var ix := 0;
      while ix < |s|
        invariant 0 <= ix <= |s|
        invariant sht.widths == old(sht.widths) + map j: nat | j < ix :: Scale(s[j])
      {
        sht.SetColWidth(ix, Scale(s[ix]));
        ix := ix + 1;
      }
    }
  }
}
