/** The grid of a CSV document as a value: a sequence of rows, each row a
    sequence of cell strings. A cell that was never written, or lies outside
    the grid, reads as the empty string. */
module CSVGrid {

  type Row = seq<string>
  type Grid = seq<Row>

  /** CSVRow.createEmptyRow(): a row with no cells. */
  const EmptyRow: Row := []

  /** getValue: the stored string when `row` and `column` index an existing
      cell, and "" for every other position, negative ones included (the
      source catches the IndexOutOfBoundsException and answers ""). */
  function Cell(g: Grid, column: int, row: int): string
  {
    if 0 <= row < |g| && 0 <= column < |g[row]| then g[row][column] else ""
  }

  /** Two grids that no read can tell apart (they may differ in trailing "" cells). */
  ghost predicate SameReads(g: Grid, h: Grid)
  {
    forall column, row :: Cell(g, column, row) == Cell(h, column, row)
  }

  /** CSVRow.set(column, value): replace the cell at `column`, first padding
      the row with "" cells when it is too short. */
  function SetInRow(r: Row, column: nat, value: string): (r': Row)
    ensures |r'| == if column < |r| then |r| else column + 1
    ensures r'[column] == value
    ensures forall i :: 0 <= i < |r| && i != column ==> r'[i] == r[i]
    ensures forall i :: |r| <= i < |r'| && i != column ==> r'[i] == ""
  {
    if column < |r| then r[column := value] else r + seq(column - |r|, _ => "") + [value]
  }

  /** The grid after the loop of update: empty rows appended until `row` is an index. */
  function Grow(g: Grid, row: nat): (g': Grid)
    ensures |g'| == if row < |g| then |g| else row + 1
    ensures forall i :: 0 <= i < |g| ==> g'[i] == g[i]
    ensures forall i :: |g| <= i < |g'| ==> g'[i] == EmptyRow
  {
    if row < |g| then g else g + seq(row + 1 - |g|, _ => EmptyRow)
  }

  /** The grid after update(column, row, value): grow, then set the cell. */
  function Set(g: Grid, column: nat, row: nat, value: string): Grid
  {
    var grown := Grow(g, row);
    grown[row := SetInRow(grown[row], column, value)]
  }

  /** After a write the written cell reads back the written value. */
  lemma SetReadsBack(g: Grid, column: nat, row: nat, value: string)
    ensures Cell(Set(g, column, row, value), column, row) == value
  {
  }

  /** A write changes what no other position reads, padding included. */
  lemma SetFrame(g: Grid, column: nat, row: nat, value: string, column': int, row': int)
    requires column' != column || row' != row
    ensures Cell(Set(g, column, row, value), column', row') == Cell(g, column', row')
  {
    var g' := Set(g, column, row, value);
    if 0 <= row' < |g| && 0 <= column' < |g[row']| {
      assert g'[row'][column'] == g[row'][column'];
    } else if 0 <= row' < |g'| && 0 <= column' < |g'[row']| {
      // a padding cell, or a cell of an appended empty row
      assert g'[row'][column'] == "";
    }
  }

  /** Both halves together: the grid read after a write, at every position. */
  lemma SetReads(g: Grid, column: nat, row: nat, value: string)
    ensures forall column', row' ::
      Cell(Set(g, column, row, value), column', row') ==
        if column' == column && row' == row then value else Cell(g, column', row')
  {
    forall column', row'
      ensures Cell(Set(g, column, row, value), column', row') ==
        if column' == column && row' == row then value else Cell(g, column', row')
    {
      if column' == column && row' == row {
        SetReadsBack(g, column, row, value);
      } else {
        SetFrame(g, column, row, value, column', row');
      }
    }
  }

  /** Growth is monotonic: the row count becomes max(|g|, row + 1), no row
      gets shorter, and the written row reaches past `column`. */
  lemma SetGrows(g: Grid, column: nat, row: nat, value: string)
    ensures |Set(g, column, row, value)| == if row < |g| then |g| else row + 1
    ensures forall i :: 0 <= i < |g| ==> |Set(g, column, row, value)[i]| >= |g[i]|
    ensures column < |Set(g, column, row, value)[row]|
  {
  }

  /** Every cell a write creates, other than the written one, stores "":
      growth leaves no holes that differ from an absent cell. */
  lemma SetPadsWithEmpty(g: Grid, column: nat, row: nat, value: string)
    ensures forall i, j :: 0 <= i < |Set(g, column, row, value)| &&
                           0 <= j < |Set(g, column, row, value)[i]| &&
                           (i != row || j != column) &&
                           !(i < |g| && j < |g[i]|) ==>
                           Set(g, column, row, value)[i][j] == ""
  {
  }

  /** Writing the same cell twice is the same as writing only the second
      value: the last write wins, and a repeated write is idempotent. */
  lemma SetOverwrite(g: Grid, column: nat, row: nat, v1: string, v2: string)
    ensures Set(Set(g, column, row, v1), column, row, v2) == Set(g, column, row, v2)
  {
    var g1 := Set(g, column, row, v1);
    assert Grow(g1, row) == g1;
    var grown := Grow(g, row);
    assert SetInRow(SetInRow(grown[row], column, v1), column, v2) == SetInRow(grown[row], column, v2);
  }

  /** Writing a cell's previous read value back undoes a write, as far as any read can tell. */
  lemma SetRestore(g: Grid, column: nat, row: nat, value: string)
    ensures SameReads(Set(Set(g, column, row, value), column, row, Cell(g, column, row)), g)
  {
    SetOverwrite(g, column, row, value, Cell(g, column, row));
    SetReads(g, column, row, Cell(g, column, row));
  }

  /** A write depends only on what the grid reads, not on trailing "" cells. */
  lemma SetKeepsSameReads(g: Grid, h: Grid, column: nat, row: nat, value: string)
    requires SameReads(g, h)
    ensures SameReads(Set(g, column, row, value), Set(h, column, row, value))
  {
    SetReads(g, column, row, value);
    SetReads(h, column, row, value);
  }
}
