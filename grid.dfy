/** The sheet's cells as values: a ragged grid of optional rows of optional cells, the
    holes being what a sparse JavaScript array reads as `undefined`. */
module Grid {
  import opened Wrappers

  /** A row: the value of each present cell, `None` for a hole. */
  type Row = seq<Option<string>>

  /** The grid: `None` for a row never written. */
  type Cells = seq<Option<Row>>

  /** `cells[row]?.[column]?.value ?? ""`: the text of a cell, "" where there is none. */
  function CellText(cells: Cells, row: int, column: int): (text: string)
    ensures (0 <= row < |cells| && cells[row].Some? && 0 <= column < |cells[row].value|
             && cells[row].value[column].Some?) ==> text == cells[row].value[column].value
    ensures !(0 <= row < |cells|) ==> text == ""
  {
    if 0 <= row < |cells| && cells[row].Some? && 0 <= column < |cells[row].value|
       && cells[row].value[column].Some?
    then cells[row].value[column].value
    else ""
  }
}
