/** The undo log of a CSV document: a stack of single-cell edits, newest
    first, and what pushing and undoing an edit do to the document. */
module CommandLog {
  import opened CSVGrid

  /** An edit of one cell: where, the value it replaced, the value it wrote. */
  datatype Command = Command(column: nat, row: nat, oldValue: string, newValue: string)

  /** The document's state: its grid and its command stack (index 0 is the top). */
  datatype Snapshot = Snapshot(rows: Grid, commands: seq<Command>)

  /** pushCommand: record the edit on top of the stack, then write its new value. */
  function Pushed(s: Snapshot, c: Command): Snapshot
  {
    Snapshot(Set(s.rows, c.column, c.row, c.newValue), [c] + s.commands)
  }

  /** undo: nothing when the stack is empty; otherwise drop the newest edit
      and write its old value back, without recording anything. */
  function Undone(s: Snapshot): Snapshot
  {
    if s.commands == [] then s
    else
      var last := s.commands[0];
      Snapshot(Set(s.rows, last.column, last.row, last.oldValue), s.commands[1..])
  }

  /** Same stack, and grids that no read can tell apart. */
  ghost predicate Equivalent(s: Snapshot, t: Snapshot)
  {
    SameReads(s.rows, t.rows) && s.commands == t.commands
  }

  /** Undo on an empty stack changes neither the grid nor the stack. */
  lemma UndoEmptyIsNoOp(s: Snapshot)
    requires s.commands == []
    ensures Undone(s) == s
  {
  }

  /** Undo on a non-empty stack removes exactly the newest edit, makes its
      cell read the edit's old value, and leaves every other read alone. */
  lemma UndoPopsNewest(s: Snapshot)
    requires s.commands != []
    ensures Undone(s).commands == s.commands[1..]
    ensures forall column, row ::
      Cell(Undone(s).rows, column, row) ==
        if column == s.commands[0].column && row == s.commands[0].row
        then s.commands[0].oldValue else Cell(s.rows, column, row)
  {
    var last := s.commands[0];
    SetReads(s.rows, last.column, last.row, last.oldValue);
  }

  /** pushCommand puts the edit on top, one deeper, and makes the edited
      cell read the new value while every other read stays. */
  lemma PushedReads(s: Snapshot, c: Command)
    ensures Pushed(s, c).commands == [c] + s.commands
    ensures |Pushed(s, c).commands| == |s.commands| + 1
    ensures forall column, row ::
      Cell(Pushed(s, c).rows, column, row) ==
        if column == c.column && row == c.row then c.newValue else Cell(s.rows, column, row)
  {
    SetReads(s.rows, c.column, c.row, c.newValue);
  }

  /** Push then undo: the stack is as before, the edited cell reads the
      edit's old value, and every other cell reads as before. So when the
      old value is what the cell read before the push, nothing can tell. */
  lemma PushThenUndo(s: Snapshot, c: Command)
    ensures Undone(Pushed(s, c)).commands == s.commands
    ensures forall column, row ::
      Cell(Undone(Pushed(s, c)).rows, column, row) ==
        if column == c.column && row == c.row then c.oldValue else Cell(s.rows, column, row)
    ensures c.oldValue == Cell(s.rows, c.column, c.row) ==> Equivalent(Undone(Pushed(s, c)), s)
  {
    SetOverwrite(s.rows, c.column, c.row, c.newValue, c.oldValue);
    SetReads(s.rows, c.column, c.row, c.oldValue);
  }

  /** Undo gives equivalent results on equivalent states. */
  lemma UndoKeepsEquivalent(s: Snapshot, t: Snapshot)
    requires Equivalent(s, t)
    ensures Equivalent(Undone(s), Undone(t))
  {
    if s.commands != [] {
      var last := s.commands[0];
      SetKeepsSameReads(s.rows, t.rows, last.column, last.row, last.oldValue);
    }
  }

  /** The states after pushing `cs` in order, first element first. */
  function PushedAll(s: Snapshot, cs: seq<Command>): Snapshot
    decreases |cs|
  {
    if cs == [] then s else PushedAll(Pushed(s, cs[0]), cs[1..])
  }

  /** The state after `n` undos. */
  function UndoneTimes(s: Snapshot, n: nat): Snapshot
  {
    if n == 0 then s else Undone(UndoneTimes(s, n - 1))
  }

  /** Each edit of `cs` records as its old value what its cell read just
      before it was pushed (as the edit's builder reads it with getValue). */
  ghost predicate Recorded(s: Snapshot, cs: seq<Command>)
    decreases |cs|
  {
    cs == [] ||
    (cs[0].oldValue == Cell(s.rows, cs[0].column, cs[0].row) && Recorded(Pushed(s, cs[0]), cs[1..]))
  }

  /** N recorded edits followed by N undos give back the starting stack and
      a grid that reads like the starting one, whatever cells they touch. */
  lemma {:induction false} PushAllThenUndoAll(s: Snapshot, cs: seq<Command>)
    requires Recorded(s, cs)
    ensures Equivalent(UndoneTimes(PushedAll(s, cs), |cs|), s)
    decreases |cs|
  {
    if cs != [] {
      var s1 := Pushed(s, cs[0]);
      var rest := cs[1..];
      PushAllThenUndoAll(s1, rest);
      var back := UndoneTimes(PushedAll(s1, rest), |rest|);
      assert UndoneTimes(PushedAll(s, cs), |cs|) == Undone(back);
      UndoKeepsEquivalent(back, s1);
      PushThenUndo(s, cs[0]);
    }
  }

  /** Pushing `a + b` is pushing `a`, then `b`. */
  lemma {:induction false} PushedAllAppend(s: Snapshot, a: seq<Command>, b: seq<Command>)
    ensures PushedAll(s, a + b) == PushedAll(PushedAll(s, a), b)
    decreases |a|
  {
    if a == [] {
      assert a + b == b;
    } else {
      assert (a + b)[0] == a[0] && (a + b)[1..] == a[1..] + b;
      PushedAllAppend(Pushed(s, a[0]), a[1..], b);
    }
  }

  /** If every edit of `a + b` was recorded, so was every edit of `b` after `a`. */
  lemma {:induction false} RecordedAppend(s: Snapshot, a: seq<Command>, b: seq<Command>)
    requires Recorded(s, a + b)
    ensures Recorded(PushedAll(s, a), b)
    decreases |a|
  {
    if a == [] {
      assert a + b == b;
    } else {
      assert (a + b)[0] == a[0] && (a + b)[1..] == a[1..] + b;
      RecordedAppend(Pushed(s, a[0]), a[1..], b);
    }
  }

  /** The undos retrace the edits newest first: after `done + undone` are
      pushed, |undone| undos give a state equivalent to the one after `done` alone. */
  lemma {:induction false} UndoStepsRetraceEdits(s: Snapshot, done: seq<Command>, undone: seq<Command>)
    requires Recorded(s, done + undone)
    ensures Equivalent(UndoneTimes(PushedAll(s, done + undone), |undone|), PushedAll(s, done))
  {
    RecordedAppend(s, done, undone);
    PushedAllAppend(s, done, undone);
    PushAllThenUndoAll(PushedAll(s, done), undone);
  }

  /** On a document whose stack started empty, the undo after those N is a no-op. */
  lemma {:induction false} ExtraUndoIsNoOp(s: Snapshot, cs: seq<Command>)
    requires s.commands == [] && Recorded(s, cs)
    ensures Undone(UndoneTimes(PushedAll(s, cs), |cs|)) == UndoneTimes(PushedAll(s, cs), |cs|)
    ensures SameReads(Undone(UndoneTimes(PushedAll(s, cs), |cs|)).rows, s.rows)
  {
    PushAllThenUndoAll(s, cs);
  }
}
