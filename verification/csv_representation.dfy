/** The document object: the grid of cells and the undo stack, changed in
    place by its methods. Each public method is one atomic step; the lock
    that serialises them is not modelled. */
module Representation {
  import opened CSVGrid
  import opened CommandLog

  /** One cell change sent to the remote sheet (csvAccess.updateToGoogle). */
  datatype Delta = Delta(column: nat, row: nat, value: string)

  /** What update sends to the remote sheet: one delta when connected, none otherwise. */
  function Sent(connected: bool, column: nat, row: nat, value: string): seq<Delta>
  {
    if connected then [Delta(column, row, value)] else []
  }

  class CSVRepresentation {
    /** The grid, row by row. */
    var rows: Grid
    /** The undo stack; commands[0] is the most recent edit. */
    var commands: seq<Command>
    /** Every delta sent to the remote sheet, oldest first. */
    ghost var synced: seq<Delta>

    /** The grid and the stack as one value. */
    function State(): Snapshot
      reads this
    {
      Snapshot(rows, commands)
    }

    /** Starts from the grid the file reader produced, with no edits. */
    constructor (initial: Grid)
      ensures rows == initial && commands == [] && synced == []
    {
      rows := initial;
      commands := [];
      synced := [];
    }

    /** updateCSV: the whole grid is replaced; the undo stack stays. */
    method UpdateCSV(newRows: Grid)
      modifies this
      ensures rows == newRows
      ensures commands == old(commands) && synced == old(synced)
      ensures forall column, row :: GetValue(column, row) == Cell(newRows, column, row)
    {
      rows := newRows;
    }

    /** getValue: the stored cell when both indices are in range, "" otherwise. */
    function GetValue(column: int, row: int): (value: string)
      reads this
      ensures 0 <= row < |rows| && 0 <= column < |rows[row]| ==> value == rows[row][column]
      ensures !(0 <= row < |rows| && 0 <= column < |rows[row]|) ==> value == ""
    {
      Cell(rows, column, row)
    }

    /** update: append empty rows until `row` exists, set the cell (padding
        the row), and send the change to the remote sheet when connected. */
    method Update(column: nat, row: nat, value: string, connected: bool)
      modifies this
      ensures rows == Set(old(rows), column, row, value)
      ensures commands == old(commands)
      ensures synced == old(synced) + Sent(connected, column, row, value)
    {
      while row >= |rows|
        invariant |old(rows)| <= |rows| <= if row < |old(rows)| then |old(rows)| else row + 1
        invariant forall i :: 0 <= i < |old(rows)| ==> rows[i] == old(rows)[i]
        invariant forall i :: |old(rows)| <= i < |rows| ==> rows[i] == EmptyRow
        invariant commands == old(commands) && synced == old(synced)
        decreases row - |rows|
      {
        rows := rows + [EmptyRow];
      }
      assert rows == Grow(old(rows), row);
      rows := rows[row := SetInRow(rows[row], column, value)];
      if connected {
        synced := synced + [Delta(column, row, value)];
      }
    }

    /** pushCommand: record the edit on the stack, then apply it. */
    method PushCommand(c: Command, connected: bool)
      modifies this
      ensures State() == Pushed(old(State()), c)
      ensures synced == old(synced) + Sent(connected, c.column, c.row, c.newValue)
    {
      commands := [c] + commands;
      Update(c.column, c.row, c.newValue, connected);
    }

    /** undo: pop the newest edit and write its old value back; on an empty
        stack nothing happens and nothing is sent. */
    method Undo(connected: bool)
      modifies this
      ensures State() == Undone(old(State()))
      ensures old(commands) == [] ==> synced == old(synced)
      ensures old(commands) != [] ==>
        synced == old(synced) + Sent(connected, old(commands)[0].column, old(commands)[0].row,
                                     old(commands)[0].oldValue)
    {
      if commands == [] {
        return;
      }
      var lastEdit := commands[0];
      commands := commands[1..];
      Update(lastEdit.column, lastEdit.row, lastEdit.oldValue, connected);
    }
  }

  /** A single cell through two edits and three undos, each edit recording
      the value read just before it; the third undo finds the stack empty. */
  method CellHistory()
  {
    var doc := new CSVRepresentation([]);
    doc.PushCommand(Command(0, 0, doc.GetValue(0, 0), "a"), false);
    assert doc.GetValue(0, 0) == "a";
    doc.PushCommand(Command(0, 0, doc.GetValue(0, 0), "b"), false);
    assert doc.GetValue(0, 0) == "b";
    doc.Undo(false);
    assert doc.GetValue(0, 0) == "a";
    doc.Undo(false);
    assert doc.GetValue(0, 0) == "" && doc.commands == [];
    doc.Undo(false);
    assert doc.GetValue(0, 0) == "" && doc.commands == [];

    var far := new CSVRepresentation([]);
    far.Update(5, 5, "x", true);
    assert far.GetValue(5, 5) == "x" && far.GetValue(0, 0) == "";
    assert |far.rows| == 6 && |far.rows[5]| == 6;
    assert forall i :: 0 <= i < 5 ==> far.rows[i] == EmptyRow;
    assert far.synced == [Delta(5, 5, "x")];
  }
}
