/** What the text `formatToCSV` saves says about the sheet: its shape, that it reads back
    cell by cell when no value holds a separator, that only the window matters, and that
    values are written verbatim, without CSV quoting. */
module CsvFormat {
  import Grid
  import Text
  import opened Sheet

  /** No cell of the window holds a ',' or a line break. */
  predicate WindowFree(g: Grid.Cells, rows: int, columns: int) {
    forall r, c :: 0 <= r < rows && 0 <= c < columns ==>
      Text.Free(Grid.CellText(g, r, c), ',') && Text.Free(Grid.CellText(g, r, c), '\n')
  }

  /** An empty window, or one with no rows, saves as the empty text. */
  lemma NoRows(g: Grid.Cells, rows: int, columns: int)
    requires rows <= 0
    ensures Csv(g, rows, columns) == ""
  {
  }

  /** A separator other than `ch` adds no `ch` between two texts. */
  lemma CountGlue(a: string, sep: char, b: string, ch: char)
    requires ch != sep
    ensures Text.Count(a + [sep] + b, ch) == Text.Count(a, ch) + Text.Count(b, ch)
  {
    Text.CountAppend(a, [sep], ch);
    Text.CountAppend(a + [sep], b, ch);
    assert Text.Count([sep], ch) == 0 by { assert [sep][1..] == []; }
  }

  lemma MultiplyStep(n: nat, c: nat)
    ensures n * c + c == (n + 1) * c
  {
  }

  /** Pieces that each hold `c` copies of `ch`, joined with another separator, hold
      `|ss| * c` copies together. */
  lemma {:induction false} CountJoinUniform(ss: seq<string>, sep: char, ch: char, c: nat)
    requires ch != sep
    requires forall k :: 0 <= k < |ss| ==> Text.Count(ss[k], ch) == c
    ensures Text.Count(Text.JoinWith(ss, sep), ch) == |ss| * c
    decreases |ss|
  {
    if |ss| == 1 {
      assert Text.JoinWith(ss, sep) == ss[0];
    } else if |ss| > 1 {
      var init, last := ss[..|ss| - 1], ss[|ss| - 1];
      CountJoinUniform(init, sep, ch, c);
      assert Text.JoinWith(ss, sep) == Text.JoinWith(init, sep) + [sep] + last;
      CountGlue(Text.JoinWith(init, sep), sep, last, ch);
      MultiplyStep(|init|, c);
    }
  }

  /** Every line of a free window is free of line breaks, whatever the column count
      (with no columns a line is empty). */
  lemma LineFree(g: Grid.Cells, rows: int, columns: int, r: nat)
    requires WindowFree(g, rows, columns) && r < rows
    ensures Text.Free(Lines(g, rows, columns)[r], '\n')
  {
    var fs := Fields(g, r, columns);
    assert forall k :: 0 <= k < |fs| ==> Text.Free(fs[k], '\n') by {
      forall k | 0 <= k < |fs| ensures Text.Free(fs[k], '\n') {
        assert fs[k] == Grid.CellText(g, r, k);
      }
    }
    Text.JoinWithFree(fs, ',', '\n');
  }

  /** Every line of a window with at least one column and free cells holds
      `columns - 1` commas. */
  lemma LineShape(g: Grid.Cells, rows: int, columns: int, r: nat)
    requires WindowFree(g, rows, columns) && r < rows && columns >= 1
    ensures Text.Free(Lines(g, rows, columns)[r], '\n')
    ensures Text.Count(Lines(g, rows, columns)[r], ',') == columns - 1
  {
    var fs := Fields(g, r, columns);
    assert forall k :: 0 <= k < |fs| ==> Text.Free(fs[k], ',') by {
      forall k | 0 <= k < |fs| ensures Text.Free(fs[k], ',') {
        assert fs[k] == Grid.CellText(g, r, k);
      }
    }
    LineFree(g, rows, columns, r);
    Text.CountJoinWith(fs, ',');
  }

  /** The saved text of a free window with at least one row has one line break fewer
      than rows, also when it has no columns and every line is empty. */
  lemma {:induction false} CsvLineBreaks(g: Grid.Cells, rows: int, columns: int)
    requires rows >= 1 && WindowFree(g, rows, columns)
    ensures Text.Count(Csv(g, rows, columns), '\n') == rows - 1
  {
    var ls := Lines(g, rows, columns);
    forall r | 0 <= r < |ls| ensures Text.Free(ls[r], '\n') {
      LineFree(g, rows, columns, r);
    }
    Text.CountJoinWith(ls, '\n');
  }

  /** The saved text of a free window with at least one row and one column has one line
      break fewer than rows, and `columns - 1` commas on each line. */
  lemma {:induction false} CsvCounts(g: Grid.Cells, rows: int, columns: int)
    requires rows >= 1 && columns >= 1 && WindowFree(g, rows, columns)
    ensures Text.Count(Csv(g, rows, columns), '\n') == rows - 1
    ensures Text.Count(Csv(g, rows, columns), ',') == rows * (columns - 1)
  {
    var ls := Lines(g, rows, columns);
    forall r | 0 <= r < |ls| ensures Text.Count(ls[r], ',') == columns - 1 {
      LineShape(g, rows, columns, r);
    }
    CsvLineBreaks(g, rows, columns);
    CountJoinUniform(ls, '\n', ',', columns - 1);
  }

  /** Splitting the saved text of a free window at line breaks and then at commas gives
      back the window's lines and, in each, the text of every cell. */
  lemma {:induction false} CsvReadsBack(g: Grid.Cells, rows: int, columns: int)
    requires rows >= 1 && columns >= 1 && WindowFree(g, rows, columns)
    ensures Text.SplitOn(Csv(g, rows, columns), '\n') == Lines(g, rows, columns)
    ensures forall r :: 0 <= r < rows ==> Text.SplitOn(Lines(g, rows, columns)[r], ',') == Fields(g, r, columns)
  {
    var ls := Lines(g, rows, columns);
    forall r | 0 <= r < |ls| ensures Text.Free(ls[r], '\n') {
      LineShape(g, rows, columns, r);
    }
    Text.SplitOnJoinWith(ls, '\n');
    forall r | 0 <= r < rows
      ensures Text.SplitOn(ls[r], ',') == Fields(g, r, columns)
    {
      var fs := Fields(g, r, columns);
      forall k | 0 <= k < |fs| ensures Text.Free(fs[k], ',') {
        assert fs[k] == Grid.CellText(g, r, k);
      }
      Text.SplitOnJoinWith(fs, ',');
    }
  }

  /** A cell of the window, read back from the saved text at its line and field. */
  lemma CellReadsBack(g: Grid.Cells, rows: int, columns: int, r: nat, c: nat)
    requires WindowFree(g, rows, columns) && r < rows && c < columns
    ensures |Text.SplitOn(Csv(g, rows, columns), '\n')| == rows
    ensures |Text.SplitOn(Text.SplitOn(Csv(g, rows, columns), '\n')[r], ',')| == columns
    ensures Text.SplitOn(Text.SplitOn(Csv(g, rows, columns), '\n')[r], ',')[c] == Grid.CellText(g, r, c)
  {
    CsvReadsBack(g, rows, columns);
  }

  /** A value written by the reducer inside the window is what the saved text holds at
      its place, as long as the window stays free of separators. */
  lemma UpdateReadsBack(g: Grid.Cells, rows: int, columns: int, r: nat, c: nat, v: string)
    requires r < rows && c < columns && WindowFree(SetCell(g, r, c, v), rows, columns)
    ensures |Text.SplitOn(Csv(SetCell(g, r, c, v), rows, columns), '\n')| == rows
    ensures |Text.SplitOn(Text.SplitOn(Csv(SetCell(g, r, c, v), rows, columns), '\n')[r], ',')| == columns
    ensures Text.SplitOn(Text.SplitOn(Csv(SetCell(g, r, c, v), rows, columns), '\n')[r], ',')[c] == v
  {
    CellReadsBack(SetCell(g, r, c, v), rows, columns, r, c);
    SetCellReads(g, r, c, v);
  }

  /** Only the window is saved: grids that agree on it save the same text. */
  lemma WindowOnly(g: Grid.Cells, h: Grid.Cells, rows: int, columns: int)
    requires forall r, c :: 0 <= r < rows && 0 <= c < columns ==> Grid.CellText(g, r, c) == Grid.CellText(h, r, c)
    ensures Csv(g, rows, columns) == Csv(h, rows, columns)
  {
    forall r | 0 <= r < rows ensures Fields(g, r, columns) == Fields(h, r, columns) {
      assert forall c :: 0 <= c < |Fields(g, r, columns)| ==> Fields(g, r, columns)[c] == Fields(h, r, columns)[c];
    }
    assert Lines(g, rows, columns) == Lines(h, rows, columns);
  }

  /** A write outside the window leaves the saved text as it was. */
  lemma UpdateOutsideWindow(g: Grid.Cells, rows: int, columns: int, r: nat, c: nat, v: string)
    requires rows <= r || columns <= c
    ensures Csv(SetCell(g, r, c, v), rows, columns) == Csv(g, rows, columns)
  {
    var h := SetCell(g, r, c, v);
    forall r', c' | 0 <= r' < rows && 0 <= c' < columns
      ensures Grid.CellText(g, r', c') == Grid.CellText(h, r', c')
    {
      if r' != r {
        SetCellOtherRows(g, r, c, v, r');
      } else {
        SetCellOtherColumns(g, r, c, v, c');
      }
    }
    WindowOnly(g, h, rows, columns);
  }

  /** Values are written verbatim: a one-cell window saves exactly the cell's text, so a
      value holding a comma reads back as two fields (no quoting as in section 2 of
      RFC 4180). */
  lemma {:induction false} CommaSplitsValue(g: Grid.Cells, a: string, b: string)
    requires Grid.CellText(g, 0, 0) == a + [','] + b
    requires Text.Free(a, ',') && Text.Free(b, ',')
    ensures Csv(g, 1, 1) == a + [','] + b
    ensures Text.SplitOn(Csv(g, 1, 1), ',') == [a, b]
  {
    var ls := Lines(g, 1, 1);
    assert Fields(g, 0, 1) == [Grid.CellText(g, 0, 0)];
    assert ls == [a + [','] + b];
    Text.JoinWithTwo(a, b, ',');
    Text.SplitOnJoinWith([a, b], ',');
  }
}
