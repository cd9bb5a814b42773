/**
 * The worksheet the exporter fills, reduced to what the export pass observes:
 * the text written at each (row, column) and the width set on each column.
 * Styling and the binary file format belong to the spreadsheet library.
 */
module Sheets {
  import opened Wrappers

  /** A cell address: zero-based row and column, as `sheet.write(row, col, ...)` takes them. */
  datatype Pos = Pos(row: nat, col: nat)

  /** The text stored at `p`, if any has been written there. */
  function Lookup(cells: map<Pos, string>, p: Pos): Option<string>
  {
    if p in cells then Some(cells[p]) else None
  }

  class Sheet {
    const name: string
    var cells: map<Pos, string>
    var widths: map<nat, int>

    /** `wb.add_sheet(name, cell_overwrite_ok=True)`: a new, empty sheet. */
    constructor (name: string)
      ensures this.name == name && cells == map[] && widths == map[]
    {
      this.name := name;
      cells := map[];
      widths := map[];
    }

    /** `sheet.write(row, col, text)`; overwriting is allowed. */
    method Write(row: nat, col: nat, text: string)
      modifies this`cells
      ensures cells == old(cells)[Pos(row, col) := text]
    {
      cells := cells[Pos(row, col) := text];
    }

    /** `sheet.col(col).width = width`. */
    method SetColWidth(col: nat, width: int)
      modifies this`widths
      ensures widths == old(widths)[col := width]
    {
      widths := widths[col := width];
    }
  }
}
