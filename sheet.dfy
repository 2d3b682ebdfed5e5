/** The sheet's state in use-sheet.ts: a ragged grid of cell objects, the reducer that
    writes one cell copy-on-write, and the CSV text the sheet is saved as. */
module Sheet {
  import opened Wrappers
  import Grid
  import Text

  /** `ICell`: an object with one mutable field. */
  class Cell {
    var value: string

    constructor (value: string)
      ensures this.value == value
    {
      this.value := value;
    }
  }

  /** A row of cell objects, `None` for a hole. */
  type CellRow = seq<Option<Cell>>

  /** `ICell[][]`, with holes for rows never written. */
  type State = seq<Option<CellRow>>

  datatype Action = UpdateCell(row: nat, column: nat, value: string) | Other

  /** What the reducer does: a new state, or `throw new Error()`. */
  datatype Outcome = Next(state: State) | Thrown

  // ---------------- JavaScript array assignment ----------------

  /** `a[i] = x` on a sparse array: an index past the end lengthens the array, leaving
      holes between the old end and `i`. */
  function Place<T>(a: seq<Option<T>>, i: nat, x: T): (b: seq<Option<T>>)
    ensures |b| == if i < |a| then |a| else i + 1
    ensures b[i] == Some(x)
    ensures forall j :: 0 <= j < |b| && j != i ==> b[j] == if j < |a| then a[j] else None
  {
    if i < |a| then a[i := Some(x)] else a + seq(i - |a|, _ => None) + [Some(x)]
  }

  // ---------------- the grid as values ----------------

  function RowObjects(row: CellRow): set<Cell> {
    set i | 0 <= i < |row| && row[i].Some? :: row[i].value
  }

  function Objects(s: State): set<Cell> {
    set r, i | 0 <= r < |s| && s[r].Some? && 0 <= i < |s[r].value| && s[r].value[i].Some? :: s[r].value[i].value
  }

  lemma RowObjectsInState(s: State, r: nat)
    requires r < |s| && s[r].Some?
    ensures RowObjects(s[r].value) <= Objects(s)
  {
    forall x | x in RowObjects(s[r].value) ensures x in Objects(s) {
      var i :| 0 <= i < |s[r].value| && s[r].value[i].Some? && s[r].value[i].value == x;
    }
  }

  /** The values of a row's cells. */
  function RowValues(row: CellRow): (vs: Grid.Row)
    reads RowObjects(row)
    ensures |vs| == |row|
    ensures forall i :: 0 <= i < |row| ==> vs[i] == if row[i].Some? then Some(row[i].value.value) else None
  {
    seq(|row|, i requires 0 <= i < |row| reads RowObjects(row) =>
      if row[i].Some? then Some(row[i].value.value) else None)
  }

  /** The values the state holds, read in the current heap. */
  function Snapshot(s: State): (g: Grid.Cells)
    reads Objects(s)
    ensures |g| == |s|
    ensures forall r :: 0 <= r < |s| ==> g[r] == if s[r].Some? then Some(RowValues(s[r].value)) else None
  {
    seq(|s|, r requires 0 <= r < |s| reads Objects(s) =>
      if s[r].Some? then (RowObjectsInState(s, r); Some(RowValues(s[r].value))) else None)
  }

  // ---------------- the update, on values ----------------

  /** Row `r` of the grid, or the empty row `[]` the reducer starts from. */
  function RowOf(g: Grid.Cells, r: nat): Grid.Row {
    if r < |g| && g[r].Some? then g[r].value else []
  }

  /** The grid after `update_cell(r, c, v)`. */
  function SetCell(g: Grid.Cells, r: nat, c: nat, v: string): (h: Grid.Cells)
    ensures |h| == if r < |g| then |g| else r + 1
    ensures h[r].Some? && c < |h[r].value| && h[r].value[c] == Some(v)
    ensures forall r' :: 0 <= r' < |g| && r' != r ==> h[r'] == g[r']
    ensures forall c' :: 0 <= c' < |h[r].value| && c' != c ==>
      h[r].value[c'] == if c' < |RowOf(g, r)| then RowOf(g, r)[c'] else None
  {
    Place(g, r, Place(RowOf(g, r), c, v))
  }

  /** The written cell reads back `v`. */
  lemma SetCellReads(g: Grid.Cells, r: nat, c: nat, v: string)
    ensures Grid.CellText(SetCell(g, r, c, v), r, c) == v
  {
  }

  /** Every other row is left as it was: present rows are unchanged and the grid grows
      only by holes. */
  lemma SetCellOtherRows(g: Grid.Cells, r: nat, c: nat, v: string, r': nat)
    requires r' != r
    ensures r' < |g| ==> SetCell(g, r, c, v)[r'] == g[r']
    ensures |g| <= r' < |SetCell(g, r, c, v)| ==> SetCell(g, r, c, v)[r'] == None
    ensures forall c' :: Grid.CellText(SetCell(g, r, c, v), r', c') == Grid.CellText(g, r', c')
  {
  }

  /** Within row `r`, every other column reads as before. */
  lemma SetCellOtherColumns(g: Grid.Cells, r: nat, c: nat, v: string, c': nat)
    requires c' != c
    ensures Grid.CellText(SetCell(g, r, c, v), r, c') == Grid.CellText(g, r, c')
  {
  }

  /** A row that was absent now holds column `c` only. */
  lemma SetCellNewRow(g: Grid.Cells, r: nat, c: nat, v: string)
    requires !(r < |g| && g[r].Some?)
    ensures SetCell(g, r, c, v)[r] == Some(seq(c, _ => None) + [Some(v)])
  {
    var row := Place(RowOf(g, r), c, v);
    assert row == seq(c, _ => None) + [Some(v)];
  }

  // ---------------- the reducer ----------------

  /** `cloneOrCreateCell`: a copy of the cell at `[row][column]`, or a new empty cell. */
  method CloneOrCreateCell(row: nat, column: nat, cells: State) returns (cell: Cell)
    ensures fresh(cell)
    ensures cell.value == Grid.CellText(Snapshot(cells), row, column)
  {
    if row < |cells| && cells[row].Some? && column < |cells[row].value| && cells[row].value[column].Some? {
      cell := new Cell(cells[row].value[column].value.value);
    } else {
      cell := new Cell("");
    }
  }

  /** The state after the update is the old one with the written cell in place. */
  lemma SnapshotOfPlace(s: State, r: nat, c: nat, cell: Cell)
    requires cell !in Objects(s)
    ensures var row := if r < |s| && s[r].Some? then s[r].value else [];
            Snapshot(Place(s, r, Place(row, c, cell))) == SetCell(Snapshot(s), r, c, cell.value)
  {
    var row := if r < |s| && s[r].Some? then s[r].value else [];
    var row' := Place(row, c, cell);
    var s' := Place(s, r, row');
    var g := Snapshot(s);
    assert RowValues(row) == RowOf(g, r);
    assert RowValues(row') == Place(RowOf(g, r), c, cell.value);
    forall j | 0 <= j < |s'| && j != r ensures Snapshot(s')[j] == SetCell(g, r, c, cell.value)[j] {
      if j < |s| && s[j].Some? {
        assert s'[j] == s[j];
        assert RowValues(s'[j].value) == RowValues(s[j].value);
      }
    }
  }

  /** `reducer`: `update_cell` copies the outer array and the row, puts a fresh copy of
      the cell in the row, writes the new value into that copy and stores the row back;
      any other action throws. Nothing that existed before is modified. */
  method Reduce(state: State, action: Action) returns (out: Outcome)
    ensures action.Other? ==> out == Thrown
    ensures action.UpdateCell? ==>
      && out.Next?
      && Snapshot(out.state) == SetCell(old(Snapshot(state)), action.row, action.column, action.value)
    ensures action.UpdateCell? ==>
      && out.Next?
      && action.row < |out.state| && out.state[action.row].Some?
      && action.column < |out.state[action.row].value|
      && out.state[action.row].value[action.column].Some?
      && fresh(out.state[action.row].value[action.column].value)
    ensures action.UpdateCell? ==>
      && out.Next?
      && |out.state| >= |state|
      && forall r, c ::
           0 <= r < |state| && state[r].Some? && 0 <= c < |state[r].value| && (r, c) != (action.row, action.column)
           ==> out.state[r].Some? && c < |out.state[r].value| && out.state[r].value[c] == state[r].value[c]
  {
    match action
    case Other =>
      out := Thrown;
    case UpdateCell(r, c, v) =>
      var cells := state;
      var row: CellRow := if r < |cells| && cells[r].Some? then cells[r].value else [];
      var cell := CloneOrCreateCell(r, c, cells);
      row := Place(row, c, cell);
      cell.value := v;
      cells := Place(cells, r, row);
      SnapshotOfPlace(state, r, c, cell);
      out := Next(cells);
  }

  // ---------------- CSV ----------------

  /** The cells of row `r` in the window, absent ones as "". */
  function Fields(g: Grid.Cells, r: int, columns: int): (fs: seq<string>)
    ensures |fs| == if columns < 0 then 0 else columns
    ensures forall c :: 0 <= c < |fs| ==> fs[c] == Grid.CellText(g, r, c)
  {
    seq(if columns < 0 then 0 else columns, c requires 0 <= c => Grid.CellText(g, r, c))
  }

  /** The lines of the window, each its fields separated by ','. */
  function Lines(g: Grid.Cells, rows: int, columns: int): (ls: seq<string>)
    ensures |ls| == if rows < 0 then 0 else rows
    ensures forall r :: 0 <= r < |ls| ==> ls[r] == Text.JoinWith(Fields(g, r, columns), ',')
  {
    seq(if rows < 0 then 0 else rows, r requires 0 <= r => Text.JoinWith(Fields(g, r, columns), ','))
  }

  /** The text `formatToCSV` produces: the lines separated by '\n'. */
  function Csv(g: Grid.Cells, rows: int, columns: int): string {
    Text.JoinWith(Lines(g, rows, columns), '\n')
  }

  /** Appending the next piece, after a separator unless it is the first. */
  lemma JoinStep(ps: seq<string>, k: nat, sep: char)
    requires k < |ps|
    ensures Text.JoinWith(ps[..k + 1], sep) == Text.JoinWith(ps[..k], sep) + (if k > 0 then [sep] else []) + ps[k]
  {
    assert ps[..k + 1][..k] == ps[..k];
    if k == 0 {
      assert Text.JoinWith(ps[..0], sep) == "";
    }
  }

  /** One step of a loop that writes piece `k` and then a separator unless `k` is last:
      the text stays the join of the pieces so far, followed by the separator owed. */
  lemma PendingStep(ps: seq<string>, k: nat, sep: char, acc: string, piece: string, next: string)
    requires k < |ps| && piece == ps[k]
    requires acc == Text.JoinWith(ps[..k], sep) + (if 0 < k then [sep] else [])
    requires next == acc + piece + (if k < |ps| - 1 then [sep] else [])
    ensures next == Text.JoinWith(ps[..k + 1], sep) + (if 0 < k + 1 < |ps| then [sep] else [])
  {
    JoinStep(ps, k, sep);
  }

  /** What the loop reads at `data[row]?.[column]`, as the snapshot has it. */
  lemma CellAt(data: State, row: nat, column: nat)
    ensures Grid.CellText(Snapshot(data), row, column)
         == if row < |data| && data[row].Some? && column < |data[row].value| && data[row].value[column].Some?
            then data[row].value[column].value.value else ""
  {
  }

  /** The inner loop of `formatToCSV`: the cells of row `row` in the window, separated
      by ',', an absent cell contributing nothing. */
  method FormatLine(data: State, row: nat, columns: int) returns (line: string)
    ensures line == Text.JoinWith(Fields(Snapshot(data), row, columns), ',')
  {
    ghost var fs := Fields(Snapshot(data), row, columns);
    line := "";
    var column := 0;
    while column < columns
      invariant 0 <= column <= |fs|
      invariant line == Text.JoinWith(fs[..column], ',') + (if 0 < column < |fs| then [','] else [])
    {
      // the cells were allocated before the loop, so the loop leaves their values alone
      assert forall x | x in Objects(data) :: allocated(x);
      ghost var acc := line;
      CellAt(data, row, column);
      var text := "";
      if row < |data| && data[row].Some? && column < |data[row].value| && data[row].value[column].Some? {
        text := data[row].value[column].value.value;
      }
      line := line + text;
      if column < columns - 1 {
        line := line + ",";
      }
      PendingStep(fs, column, ',', acc, text, line);
      assert line == Text.JoinWith(fs[..column + 1], ',') + (if 0 < column + 1 < |fs| then [','] else []);
      column := column + 1;
    }
    assert forall x | x in Objects(data) :: allocated(x);
    assert column == |fs| && fs[..|fs|] == fs;
  }

  /** `formatToCSV`: the window of `rows` x `columns` cells, row by row, the lines
      separated by '\n'. */
  method FormatToCsv(data: State, rows: int, columns: int) returns (csv: string)
    ensures csv == Csv(Snapshot(data), rows, columns)
  {
    ghost var g := Snapshot(data);
    ghost var ls := Lines(g, rows, columns);
    csv := "";
    var row := 0;
    while row < rows
      invariant 0 <= row <= |ls|
      invariant csv == Text.JoinWith(ls[..row], '\n') + (if 0 < row < |ls| then ['\n'] else [])
      invariant Snapshot(data) == g
    {
      ghost var before := csv;
      assert forall x | x in Objects(data) :: allocated(x);
      var line := FormatLine(data, row, columns);
      csv := csv + line;
      if row < rows - 1 {
        csv := csv + "\n";
      }
      PendingStep(ls, row, '\n', before, line, csv);
      assert csv == Text.JoinWith(ls[..row + 1], '\n') + (if 0 < row + 1 < |ls| then ['\n'] else []);
      row := row + 1;
    }
    assert row == |ls| && ls[..|ls|] == ls;
  }
}
