/** The reversible edit commands kept in the undo history, with the redo
    branch (`Apply`) and the undo branch (`Revert`) of each, and the proof that
    the two branches invert each other. */
module Commands {
  import opened Seqs
  import opened Tables

  /** One entry of `state.history`; each variant carries what is needed to
      invert it. */
  datatype Command =
    | EditCell(row: nat, col: nat, oldVal: string, newVal: string)
    | AddRow(index: nat, rowData: Row)
    | DeleteRow(index: nat, rowData: Row)
    | AddCol(index: nat, name: string)
    | DeleteCol(index: nat, name: string, colData: seq<string>)

  /** The `redo` branch for `c`. */
  function Apply(c: Command, t: Table): Table
  {
    match c
    case EditCell(row, col, _, newVal) => SetCell(t, row, col, newVal)
    case AddRow(i, rowData) => t.(rows := InsertAt(t.rows, i, rowData))
    case DeleteRow(i, _) => t.(rows := RemoveAt(t.rows, i))
    case AddCol(i, name) => InsertColumn(t, i, name, Blank(|t.rows|))
    case DeleteCol(i, _, _) => RemoveColumn(t, i)
  }

  /** The `undo` branch for `c`. */
  function Revert(c: Command, t: Table): Table
  {
    match c
    case EditCell(row, col, oldVal, _) => SetCell(t, row, col, oldVal)
    case AddRow(i, _) => t.(rows := RemoveAt(t.rows, i))
    case DeleteRow(i, rowData) => t.(rows := InsertAt(t.rows, i, rowData))
    case AddCol(i, _) => RemoveColumn(t, i)
    case DeleteCol(i, name, colData) => InsertColumn(t, i, name, colData)
  }

  /** What the `redo` branch does to the table: a cell edit writes the new
      value, the row commands leave the headers alone and add or remove one
      row, and the column commands keep the row count and add or remove one
      header. */
  lemma ApplyShape(c: Command, t: Table)
    ensures c.EditCell? ==> Apply(c, t).headers == t.headers && |Apply(c, t).rows| == |t.rows|
    ensures c.EditCell? && c.row < |t.rows| && c.col < |t.rows[c.row]| ==> Apply(c, t).rows[c.row] == t.rows[c.row][c.col := c.newVal]
    ensures c.AddRow? ==> Apply(c, t).headers == t.headers && |Apply(c, t).rows| == |t.rows| + 1
    ensures c.AddRow? && c.index <= |t.rows| ==> Apply(c, t).rows[c.index] == c.rowData
    ensures c.DeleteRow? ==> Apply(c, t).headers == t.headers
    ensures c.DeleteRow? && c.index < |t.rows| ==> |Apply(c, t).rows| == |t.rows| - 1
    ensures c.AddCol? ==> |Apply(c, t).headers| == |t.headers| + 1 && |Apply(c, t).rows| == |t.rows|
    ensures c.AddCol? && c.index <= |t.headers| ==> Apply(c, t).headers[c.index] == c.name
    ensures c.DeleteCol? ==> |Apply(c, t).rows| == |t.rows|
    ensures c.DeleteCol? && c.index < |t.headers| ==> |Apply(c, t).headers| == |t.headers| - 1
  {
  }

  /** What the `undo` branch does to the table: a cell edit writes the old
      value back, and each structural command removes what it added or
      re-inserts what it removed. */
  lemma RevertShape(c: Command, t: Table)
    ensures c.EditCell? ==> Revert(c, t).headers == t.headers && |Revert(c, t).rows| == |t.rows|
    ensures c.EditCell? && c.row < |t.rows| && c.col < |t.rows[c.row]| ==> Revert(c, t).rows[c.row] == t.rows[c.row][c.col := c.oldVal]
    ensures c.AddRow? ==> Revert(c, t).headers == t.headers
    ensures c.AddRow? && c.index < |t.rows| ==> |Revert(c, t).rows| == |t.rows| - 1
    ensures c.DeleteRow? ==> Revert(c, t).headers == t.headers && |Revert(c, t).rows| == |t.rows| + 1
    ensures c.DeleteRow? && c.index <= |t.rows| ==> Revert(c, t).rows[c.index] == c.rowData
    ensures c.AddCol? ==> |Revert(c, t).rows| == |t.rows|
    ensures c.AddCol? && c.index < |t.headers| ==> |Revert(c, t).headers| == |t.headers| - 1
    ensures c.DeleteCol? ==> |Revert(c, t).headers| == |t.headers| + 1 && |Revert(c, t).rows| == |t.rows|
    ensures c.DeleteCol? && c.index <= |t.headers| ==> Revert(c, t).headers[c.index] == c.name
  {
  }

  /** `c` describes an edit of `t`: its indices are in range and the data it
      carries is what `t` holds there, so redoing it on `t` can be undone. */
  predicate Recordable(c: Command, t: Table)
  {
    WellFormed(t) &&
    match c
    case EditCell(row, col, oldVal, _) =>
      row < |t.rows| && col < |t.headers| && t.rows[row][col] == oldVal
    case AddRow(i, rowData) => i <= |t.rows| && |rowData| == |t.headers|
    case DeleteRow(i, rowData) => i < |t.rows| && t.rows[i] == rowData
    case AddCol(i, _) => i <= |t.headers|
    case DeleteCol(i, name, colData) =>
      i < |t.headers| && t.headers[i] == name && colData == Column(t.rows, i)
  }

  /** `t` is a table on which `c` has just been done, so undoing it can be
      redone. */
  predicate Revertible(c: Command, t: Table)
  {
    WellFormed(t) &&
    match c
    case EditCell(row, col, _, newVal) =>
      row < |t.rows| && col < |t.headers| && t.rows[row][col] == newVal
    case AddRow(i, rowData) => i < |t.rows| && t.rows[i] == rowData
    case DeleteRow(i, rowData) => i <= |t.rows| && |rowData| == |t.headers|
    case AddCol(i, name) =>
      i < |t.headers| && t.headers[i] == name && Column(t.rows, i) == Blank(|t.rows|)
    case DeleteCol(i, _, colData) => i <= |t.headers| && |colData| == |t.rows|
  }

  /** Redo followed by undo restores the table exactly, and leaves a table on
      which the command can be redone again. */
  lemma RevertUndoesApply(c: Command, t: Table)
    requires Recordable(c, t)
    ensures WellFormed(Apply(c, t))
    ensures Revertible(c, Apply(c, t))
    ensures Revert(c, Apply(c, t)) == t
  {
    match c
    case EditCell(row, col, oldVal, newVal) => EditCellRoundTrip(t, row, col, oldVal, newVal);
    case AddRow(i, rowData) => RemoveInserted(t.rows, i, rowData);
    case DeleteRow(i, rowData) => ReinsertRemoved(t.rows, i);
    case AddCol(i, name) => AddColUndone(t, i, name);
    case DeleteCol(i, name, colData) => DeleteColUndone(t, i);
  }

  /** Undo followed by redo restores the table exactly, and leaves a table on
      which the command can be undone again. */
  lemma ApplyRedoesRevert(c: Command, t: Table)
    requires Revertible(c, t)
    ensures WellFormed(Revert(c, t))
    ensures Recordable(c, Revert(c, t))
    ensures Apply(c, Revert(c, t)) == t
  {
    match c
    case EditCell(row, col, oldVal, newVal) => EditCellRoundTrip(t, row, col, newVal, oldVal);
    case AddRow(i, rowData) => ReinsertRemoved(t.rows, i);
    case DeleteRow(i, rowData) => RemoveInserted(t.rows, i, rowData);
    case AddCol(i, name) => AddColRedone(t, i, name);
    case DeleteCol(i, name, colData) => DeleteColRedone(t, i, name, colData);
  }

  lemma EditCellRoundTrip(t: Table, row: nat, col: nat, v: string, w: string)
    requires WellFormed(t) && row < |t.rows| && col < |t.headers| && t.rows[row][col] == v
    ensures WellFormed(SetCell(t, row, col, w))
    ensures SetCell(t, row, col, w).rows[row][col] == w
    ensures SetCell(SetCell(t, row, col, w), row, col, v) == t
  {
    assert t.rows[row][col := w][col := v] == t.rows[row];
    assert SetCell(SetCell(t, row, col, w), row, col, v).rows == t.rows;
  }

  lemma AddColUndone(t: Table, i: nat, name: string)
    requires WellFormed(t) && i <= |t.headers|
    ensures WellFormed(Apply(AddCol(i, name), t))
    ensures Revertible(AddCol(i, name), Apply(AddCol(i, name), t))
    ensures Revert(AddCol(i, name), Apply(AddCol(i, name), t)) == t
  {
    var a := Apply(AddCol(i, name), t);
    RemoveInserted(t.headers, i, name);
    forall k | 0 <= k < |t.rows|
      ensures RemoveAt(a.rows[k], i) == t.rows[k]
      ensures a.rows[k][i] == ""
    {
      RemoveInserted(t.rows[k], i, "");
    }
    assert Column(a.rows, i) == Blank(|t.rows|);
    assert RemoveColumn(a, i).rows == t.rows;
  }

  lemma AddColRedone(t: Table, i: nat, name: string)
    requires Revertible(AddCol(i, name), t)
    ensures WellFormed(Revert(AddCol(i, name), t))
    ensures Recordable(AddCol(i, name), Revert(AddCol(i, name), t))
    ensures Apply(AddCol(i, name), Revert(AddCol(i, name), t)) == t
  {
    var b := Revert(AddCol(i, name), t);
    ReinsertRemoved(t.headers, i);
    forall k | 0 <= k < |t.rows|
      ensures InsertAt(b.rows[k], i, "") == t.rows[k]
    {
      assert t.rows[k][i] == Column(t.rows, i)[k];
      ReinsertRemoved(t.rows[k], i);
    }
    assert InsertColumn(b, i, name, Blank(|b.rows|)).rows == t.rows;
  }

  lemma DeleteColUndone(t: Table, i: nat)
    requires WellFormed(t) && i < |t.headers|
    ensures WellFormed(Apply(DeleteCol(i, t.headers[i], Column(t.rows, i)), t))
    ensures Revertible(DeleteCol(i, t.headers[i], Column(t.rows, i)), Apply(DeleteCol(i, t.headers[i], Column(t.rows, i)), t))
    ensures Revert(DeleteCol(i, t.headers[i], Column(t.rows, i)), Apply(DeleteCol(i, t.headers[i], Column(t.rows, i)), t)) == t
  {
    var colData := Column(t.rows, i);
    var a := RemoveColumn(t, i);
    ReinsertRemoved(t.headers, i);
    forall k | 0 <= k < |t.rows|
      ensures InsertAt(a.rows[k], i, colData[k]) == t.rows[k]
    {
      ReinsertRemoved(t.rows[k], i);
    }
    assert InsertColumn(a, i, t.headers[i], colData).rows == t.rows;
  }

  lemma DeleteColRedone(t: Table, i: nat, name: string, colData: seq<string>)
    requires Revertible(DeleteCol(i, name, colData), t)
    ensures WellFormed(Revert(DeleteCol(i, name, colData), t))
    ensures Recordable(DeleteCol(i, name, colData), Revert(DeleteCol(i, name, colData), t))
    ensures Apply(DeleteCol(i, name, colData), Revert(DeleteCol(i, name, colData), t)) == t
  {
    var b := InsertColumn(t, i, name, colData);
    RemoveInserted(t.headers, i, name);
    forall k | 0 <= k < |t.rows|
      ensures RemoveAt(b.rows[k], i) == t.rows[k]
      ensures b.rows[k][i] == colData[k]
    {
      RemoveInserted(t.rows[k], i, colData[k]);
    }
    assert Column(b.rows, i) == colData;
    assert RemoveColumn(b, i).rows == t.rows;
  }

  /** `c` leads from `before` to `after`: redo maps one onto the other, undo
      maps back, and both are well formed. */
  ghost predicate Fits(c: Command, before: Table, after: Table)
  {
    WellFormed(before) && WellFormed(after) && Apply(c, before) == after && Revert(c, after) == before
  }

  lemma RecordableFits(c: Command, t: Table)
    requires Recordable(c, t)
    ensures Fits(c, t, Apply(c, t))
  {
    RevertUndoesApply(c, t);
  }
}
