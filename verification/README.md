# CSV document model

A Dafny model of `CSVRepresentation`, the in-memory document behind a terminal CSV
editor that can mirror a Google Sheet. The document holds two things:

- a growable grid of string cells, kept as a list of rows where each row is a list of cells;
- a stack of the user's edits, used for undo.

Its operations are modelled:

- `getValue`: a read where any position outside the grid reads as `""`.
- `update`: append empty rows until the row exists, then set the cell, padding the row with `""`.
- `pushCommand`: record an edit on the stack, then apply it.
- `undo`: pop the newest edit and write its old value back. On an empty stack it does nothing.
- `updateCSV`: replace the whole grid.

The model has three modules:

- `CSVGrid` (`csv_grid.dfy`): the grid as a value, `seq<seq<string>>`.
  - `Cell` is the read.
  - `SetInRow` is `CSVRow.set` with padding.
  - `Grow` is the loop that appends rows.
  - `Set` is the effect of `update` on the grid.
  - The lemmas say what a read returns after a write.
- `CommandLog` (`command_log.dfy`): the edit datatype `Command(column, row, oldValue, newValue)`.
  - `Snapshot` pairs the grid with the stack. The top of the stack is index 0.
  - `Pushed` and `Undone` are the specification functions of `pushCommand` and `undo`.
  - The lemmas cover undo behaviour, including N edits followed by N undos.
- `Representation` (`csv_representation.dfy`): the class `CSVRepresentation`.
  - Its fields `rows` and `commands` are reassigned in place.
  - The ghost field `synced` logs the cell changes sent to the remote sheet.
  - `Update` keeps the source's `while` loop, with invariants, and is proved equal to `Set`.
  - `PushCommand` and `Undo` are proved equal to `Pushed` and `Undone`.
  - `CellHistory` is a client that steps one cell through edits and undos.

Where the source's comments and its code disagree, the model follows the code:

- The field comment at `CSVRepresentation.java:15` calls the stack "first in first out".
  - `push` and `poll` on an `ArrayDeque` make it last in, first out.
  - The model is LIFO, and `PushAllThenUndoAll` depends on that.

What `update` creates, as its comment and its code agree:

- The comment on `update` (lines 94-96) says it creates "any preceding row(s) or previous column(s)".
  - The loop appends empty rows (`createEmptyRow()`, line 105), and only the written row is padded.
  - So after `update(5, 5, "x")` on an empty grid, rows 0 to 4 have no cells and row 5 has 6. `CellHistory` asserts this.
  - Every cell in that range still reads `""`.

`CSVRow` and `CSVNode` are not part of this model. The model makes three assumptions about them:

- `CSVRow.set(col, v)` pads the row with `""` cells up to `col`. The comment on `update` (lines 94-96) promises this.
- `createEmptyRow()` returns a row with no cells.
- `CSVNode.newInstance(v).getData()` returns `v` (lines 61 and 107), so a cell is modelled as its string. Every read-back property (`SetReadsBack`, `SetReads`, `PushedReads`, `PushThenUndo`) rests on this.

## Model

| member | source | states |
|---|---|---|
| `CSVGrid.SetInRow` | CSVRepresentation.java:107 | setting a cell in a row gives length max(len, col+1), the cell holds the value, other old cells are kept, new padding cells are `""` |
| `CSVGrid.Grow` | CSVRepresentation.java:104-106 | appending empty rows while `row >= size` gives max(size, row+1) rows, the old rows unchanged, the new rows empty |
| `CSVGrid.SetReadsBack` | CSVRepresentation.java:94-107 | after `update(col, row, v)` the cell `(col, row)` reads `v` |
| `CSVGrid.SetFrame` | CSVRepresentation.java:94-107 | after `update(col, row, v)` every other position, negative and padding ones included, reads what it read before |
| `CSVGrid.SetReads` | CSVRepresentation.java:94-107 | the read at every position after an update: `v` at the written cell, the old read elsewhere |
| `CSVGrid.SetGrows` | CSVRepresentation.java:101-107 | an update leaves max(rows, row+1) rows, shortens no row, and makes the written row longer than `col` |
| `CSVGrid.SetPadsWithEmpty` | CSVRepresentation.java:94-107 | every cell an update creates, other than the written one, stores `""` |
| `CSVGrid.SetOverwrite` | CSVRepresentation.java:101-107 | two updates of the same cell equal the second one alone: the last write wins and a repeated update is idempotent |
| `CSVGrid.SetRestore` | CSVRepresentation.java:121-128 | writing back the value a cell read before an update makes the grid read exactly as before the update |
| `CSVGrid.SetKeepsSameReads` | CSVRepresentation.java:101-107 | updates on two grids that read alike give grids that read alike |
| `CommandLog.UndoEmptyIsNoOp` | CSVRepresentation.java:121-126 | undo on an empty stack leaves the grid and the stack unchanged |
| `CommandLog.UndoPopsNewest` | CSVRepresentation.java:117-128 | undo on a non-empty stack removes exactly the top edit, pushes nothing, makes its cell read its old value and leaves every other read unchanged |
| `CommandLog.PushedReads` | CSVRepresentation.java:84-88 | pushCommand puts the edit on top with the stack one deeper, the edited cell reads the new value, and every other read is unchanged |
| `CommandLog.PushThenUndo` | CSVRepresentation.java:84-128 | push then undo leaves the stack as it was and the cell reading the edit's old value. If that value is what the cell read before the push, no read changes |
| `CommandLog.UndoKeepsEquivalent` | CSVRepresentation.java:121-128 | undo on states with the same stack and the same reads gives states with the same stack and the same reads |
| `CommandLog.PushAllThenUndoAll` | CSVRepresentation.java:84-128 | N pushed edits, each recording the value read before it, followed by N undos restore the stack and every read |
| `CommandLog.UndoStepsRetraceEdits` | CSVRepresentation.java:84-128 | after the edits `done + undone` are pushed, as many undos as `undone` has edits leave the stack and every read as after `done` alone: the undos retrace the edits newest first |
| `CommandLog.ExtraUndoIsNoOp` | CSVRepresentation.java:121-126 | starting from an empty stack, an undo after those N undos is a no-op and the grid still reads as at the start |
| `Representation.CSVRepresentation.GetValue` | CSVRepresentation.java:58-68 | the stored string when `row` and `column` index an existing cell, and `""` otherwise, negative indices included |
| `Representation.CSVRepresentation.Update` | CSVRepresentation.java:101-115 | the row-appending loop and the cell set give grid `Set(old rows, col, row, v)`, the stack is untouched, and one delta is sent when connected |
| `Representation.CSVRepresentation.PushCommand` | CSVRepresentation.java:84-92 | the new state is `Pushed(old state, c)`: `c` on top of the stack and its new value written. One delta is sent when connected |
| `Representation.CSVRepresentation.Undo` | CSVRepresentation.java:121-128 | the new state is `Undone(old state)`. Nothing changes and nothing is sent on an empty stack. Otherwise the top edit's old value is written and sent when connected |
| `Representation.CSVRepresentation.UpdateCSV` | CSVRepresentation.java:46-50 | the grid becomes the new grid, so every read is the new grid's read. The stack and the remote log are untouched |
| `Representation.CSVRepresentation.constructor` | CSVRepresentation.java:35-39 | the document starts with the given grid and an empty stack |

## Left out

- The fair `ReentrantLock` and every `lock`/`unlock` (lines 33, 47-49, 60-66, 74-76, 102-114) are not modelled. They only serialise concurrent callers, so each public method is modelled as one atomic step. In the source, `commands.push` (line 86) and `commands.poll` (line 122) run outside the lock, so `pushCommand` and `undo` are not atomic even with it; another thread's write can land between the stack change and the cell write. Concurrent interleavings, and these in particular, are not modelled.
- The remote sheet (`head.isConnectedToGoogle()`, `csvAccess.updateToGoogle`, lines 109-112) is a network call. It becomes a `connected` parameter and the ghost log `synced`. Transport failures are not modelled.
- `save` (lines 73-77) and the `csvAccess.readCSV()` call in the constructor (line 38) are file I/O. The constructor takes the initial grid as a parameter.
- `head.updateScreen()` (line 91), `show` and `resizeColumn` only forward to the screen, and `getCommandBuilder` only returns the keystroke builder, so they are not modelled.
- `HandleCommand` and `CommandBuilder` are not part of this model. A `Command` is an opaque 4-tuple. `Recorded` states as a premise that each edit's old value is what its cell read before the push.
- `Main.java` is not modelled. It holds argument handling, path checks and the OAuth flow.
- `Representation.CSVRepresentation.Update` takes `nat` coordinates and `Command` holds `nat` ones. In the source, a negative row skips the loop and `rows.get(row)` throws `IndexOutOfBoundsException`. The model rules such calls out by type rather than modelling the exception.
- `Representation.CSVRepresentation.UpdateCSV` copies a value. The source stores the caller's list itself, so later changes through either reference are shared. That aliasing is not modelled.
- `getValue` on a `null` cell, or on a grid holding `null` rows, is not modelled. Grids here hold only strings.
