/** The editor session of the front end: the open table, the snapshot it was
    loaded or saved as, the modified flag, the undo log and the view, with
    the user operations that change them. */
module Editor {
  import opened Seqs
  import opened Text
  import opened Tables
  import opened Commands
  import opened History
  import opened View

  /** The part of `state` the operations read and write: `headers`/`rows`
      (`table`), `originalHeaders`/`originalRows` (`saved`), `isModified`,
      `history`/`historyIndex` (`log`), and `searchQuery`, `currentPage`,
      `totalPages` (`view`). */
  datatype Session = Session(table: Table, saved: Table, modified: bool, log: Log, view: ViewState)

  /** The state before any file is opened. */
  const Initial := Session(Table([], []), Table([], []), false, Empty, ViewState("", 0, 0))

  // ---------------------------------------------------------------------
  // Shared steps
  // ---------------------------------------------------------------------

  /** `checkModified`: the session is modified exactly when its table differs
      from the snapshot. */
  function CheckModified(s: Session): (r: Session)
    ensures r.modified <==> r.table != r.saved
    ensures r.table == s.table && r.saved == s.saved && r.log == s.log && r.view == s.view
  {
    s.(modified := s.table != s.saved)
  }

  /** `updatePagination` for the session's visible rows. */
  function Paginate(s: Session): (r: Session)
    ensures r.table == s.table && r.saved == s.saved && r.modified == s.modified && r.log == s.log
    ensures r.view.query == s.view.query
    ensures r.view.totalPages == TotalPages(|Filter(s.table.rows, s.view.query)|)
    ensures 0 <= r.view.currentPage < r.view.totalPages
  {
    s.(view := UpdatePagination(s.view, |Filter(s.table.rows, s.view.query)|))
  }

  /** `pushHistory(c)` after the table has become `t`: the command joins the
      log and the modified flag is recomputed. */
  function Record(s: Session, t: Table, c: Command): (r: Session)
    requires Bounded(s.log)
    ensures r.table == t && r.saved == s.saved && r.view == s.view
    ensures r.log == Push(s.log, c)
    ensures r.modified <==> t != s.saved
  {
    CheckModified(s.(table := t, log := Push(s.log, c)))
  }

  // ---------------------------------------------------------------------
  // Edits
  // ---------------------------------------------------------------------

  /** `finishCellEdit` for the cell being edited: an unchanged value is
      ignored; otherwise the cell is set and the edit recorded. */
  function FinishCellEdit(s: Session, row: nat, col: nat, v: string): (r: Session)
    requires Bounded(s.log) && row < |s.table.rows| && col < |s.table.rows[row]|
    ensures v == s.table.rows[row][col] ==> r == s
    ensures v != s.table.rows[row][col] ==>
              r.table == s.table.(rows := s.table.rows[row := s.table.rows[row][col := v]])
              && r.log == Push(s.log, EditCell(row, col, s.table.rows[row][col], v))
              && r.view == s.view && (r.modified <==> r.table != r.saved)
  {
    var before := s.table.rows[row][col];
    if v == before then s
    else Record(s, SetCell(s.table, row, col, v), EditCell(row, col, before, v))
  }

  /** `addRow`: appends a row of empty cells, records it and shows the last
      page. */
  function AddRow(s: Session): (r: Session)
    requires Bounded(s.log)
    ensures r.table == s.table.(rows := s.table.rows + [Blank(|s.table.headers|)])
    ensures r.log == Push(s.log, Command.AddRow(|s.table.rows|, Blank(|s.table.headers|)))
    ensures r.view.totalPages == TotalPages(|Filter(r.table.rows, s.view.query)|)
    ensures r.view.currentPage == r.view.totalPages - 1
  {
    var blank := Blank(|s.table.headers|);
    var p := Paginate(Record(s, s.table.(rows := s.table.rows + [blank]), Command.AddRow(|s.table.rows|, blank)));
    p.(view := p.view.(currentPage := p.view.totalPages - 1))
  }

  /** `deleteRow(i)`: refused while only one row is left; otherwise removes
      row `i` and records it with its cells. */
  function DeleteRow(s: Session, i: nat): (r: Session)
    requires Bounded(s.log) && i < |s.table.rows|
    ensures |s.table.rows| <= 1 ==> r == s
    ensures |s.table.rows| > 1 ==>
              r.table == s.table.(rows := s.table.rows[..i] + s.table.rows[i + 1..])
              && r.log == Push(s.log, Command.DeleteRow(i, s.table.rows[i]))
  {
    if |s.table.rows| <= 1 then s
    else
      Paginate(Record(s, s.table.(rows := RemoveAt(s.table.rows, i)), Command.DeleteRow(i, s.table.rows[i])))
  }

  /** The name `addColumn` gives a new column: the trimmed input, or
      `column` followed by the new column count when that is blank. */
  function ColumnName(input: string, width: nat): (name: string)
    ensures name != ""
    ensures JsTrim(input) != "" ==> name == JsTrim(input)
    ensures JsTrim(input) == "" ==> name == "column" + Decimal(width + 1)
  {
    var trimmed := JsTrim(input);
    if trimmed == "" then "column" + Decimal(width + 1) else trimmed
  }

  /** `addColumn`: appends a header and an empty cell to every row, and
      records the new column's position. */
  function AddColumn(s: Session, input: string): (r: Session)
    requires Bounded(s.log)
    ensures r.table.headers == s.table.headers + [ColumnName(input, |s.table.headers|)]
    ensures |r.table.rows| == |s.table.rows|
    ensures forall k :: 0 <= k < |s.table.rows| ==> r.table.rows[k] == s.table.rows[k] + [""]
    ensures r.log == Push(s.log, AddCol(|s.table.headers|, ColumnName(input, |s.table.headers|)))
  {
    var name := ColumnName(input, |s.table.headers|);
    var t := Table(s.table.headers + [name],
                   seq(|s.table.rows|, k requires 0 <= k < |s.table.rows| => s.table.rows[k] + [""]));
    Record(s, t, AddCol(|s.table.headers|, name))
  }

  /** `deleteColumn(i)`: refused while only one column is left; otherwise
      removes header `i` and cell `i` of every row, recording them. */
  function DeleteColumn(s: Session, i: nat): (r: Session)
    requires Bounded(s.log) && i < |s.table.headers|
    ensures |s.table.headers| <= 1 ==> r == s
    ensures |s.table.headers| > 1 ==>
              r.table == RemoveColumn(s.table, i)
              && r.log == Push(s.log, DeleteCol(i, s.table.headers[i], Column(s.table.rows, i)))
  {
    if |s.table.headers| <= 1 then s
    else Record(s, RemoveColumn(s.table, i), DeleteCol(i, s.table.headers[i], Column(s.table.rows, i)))
  }

  /** The corrected `duplicateRow(i)`: inserts a copy of row `i` after it and
      records the insertion. */
  function DuplicateRow(s: Session, i: nat): (r: Session)
    requires Bounded(s.log) && i < |s.table.rows|
    ensures r.table == s.table.(rows := InsertAt(s.table.rows, i + 1, s.table.rows[i]))
    ensures r.log == Push(s.log, Command.AddRow(i + 1, s.table.rows[i]))
  {
    var t := s.table.(rows := InsertAt(s.table.rows, i + 1, s.table.rows[i]));
    Paginate(Record(s, t, Command.AddRow(i + 1, s.table.rows[i])))
  }

  /** `duplicateRow(i)` as written: inserts the copy without recording it. */
  function DuplicateRowAsWritten(s: Session, i: nat): (r: Session)
    requires i < |s.table.rows|
    ensures r.table == s.table.(rows := InsertAt(s.table.rows, i + 1, s.table.rows[i]))
    ensures r.log == s.log
  {
    var t := s.table.(rows := InsertAt(s.table.rows, i + 1, s.table.rows[i]));
    Paginate(CheckModified(s.(table := t)))
  }

  // ---------------------------------------------------------------------
  // Undo and redo
  // ---------------------------------------------------------------------

  /** Only the row commands re-paginate after undo and redo. */
  predicate MovesRows(c: Command)
  {
    c.AddRow? || c.DeleteRow?
  }

  /** `undo`: nothing to undo is a no-op; otherwise the command at the
      cursor is reverted and the cursor steps back. */
  function Undo(s: Session): (r: Session)
    requires Bounded(s.log)
    ensures !CanUndo(s.log) ==> r == s
    ensures CanUndo(s.log) ==>
              r.table == Revert(s.log.entries[s.log.cursor], s.table)
              && r.log == s.log.(cursor := s.log.cursor - 1)
    ensures r.saved == s.saved && r.log.entries == s.log.entries && Bounded(r.log)
    ensures r.modified <==> (if CanUndo(s.log) then r.table != r.saved else s.modified)
  {
    if !CanUndo(s.log) then s
    else
      var (c, l) := StepBack(s.log);
      var s1 := s.(table := Revert(c, s.table), log := l);
      CheckModified(if MovesRows(c) then Paginate(s1) else s1)
  }

  /** `redo`: nothing to redo is a no-op; otherwise the cursor steps onto
      the next command, which is applied again. */
  function Redo(s: Session): (r: Session)
    requires Bounded(s.log)
    ensures !CanRedo(s.log) ==> r == s
    ensures CanRedo(s.log) ==>
              r.table == Apply(s.log.entries[s.log.cursor + 1], s.table)
              && r.log == s.log.(cursor := s.log.cursor + 1)
    ensures r.saved == s.saved && r.log.entries == s.log.entries && Bounded(r.log)
    ensures r.modified <==> (if CanRedo(s.log) then r.table != r.saved else s.modified)
  {
    if !CanRedo(s.log) then s
    else
      var (c, l) := StepForward(s.log);
      var s1 := s.(table := Apply(c, s.table), log := l);
      CheckModified(if MovesRows(c) then Paginate(s1) else s1)
  }

  // ---------------------------------------------------------------------
  // View, saving and loading
  // ---------------------------------------------------------------------

  /** `handleSearch`: a new query starts again at the first page. */
  function Search(s: Session, query: string): (r: Session)
    ensures r.table == s.table && r.log == s.log && r.view.query == query
    ensures r.view.currentPage == 0
  {
    Paginate(s.(view := s.view.(query := query, currentPage := 0)))
  }

  /** `goToPage`: only valid pages are accepted. */
  function GoTo(s: Session, page: int): (r: Session)
    ensures r.table == s.table && r.log == s.log
    ensures 0 <= page < s.view.totalPages ==> r.view.currentPage == page
    ensures !(0 <= page < s.view.totalPages) ==> r == s
  {
    s.(view := GoToPage(s.view, page))
  }

  /** The state update after a successful `save_file`: the table becomes
      the snapshot. */
  function MarkSaved(s: Session): (r: Session)
    ensures r.table == s.table && r.saved == s.table && !r.modified && r.log == s.log
  {
    s.(saved := s.table, modified := false)
  }

  /** The corrected state update of `loadFile`: the loaded table becomes the
      table and the snapshot, the first page is shown, and the undo log of
      the previous document is dropped. */
  function Reload(s: Session, t: Table): (r: Session)
    ensures r.table == t && r.saved == t && !r.modified && r.log == Empty
    ensures r.view.query == s.view.query
  {
    Paginate(Session(t, t, false, Empty, s.view.(currentPage := 0)))
  }

  /** The state update of `loadFile` as written: as `Reload`, but the undo
      log of the previous document is kept. */
  function ReloadAsWritten(s: Session, t: Table): (r: Session)
    ensures r.table == t && r.saved == t && !r.modified && r.log == s.log
  {
    Paginate(Session(t, t, false, s.log, s.view.(currentPage := 0)))
  }

  /** A document freshly loaded into the editor. */
  function Open(t: Table): Session
  {
    Reload(Initial, t)
  }

  // ---------------------------------------------------------------------
  // Invariants
  // ---------------------------------------------------------------------

  /** The shape invariants every operation keeps. */
  predicate Sound(s: Session)
  {
    WellFormed(s.table) && Bounded(s.log) && (s.modified <==> s.table != s.saved)
    && 0 <= s.view.currentPage < s.view.totalPages
  }

  /** `trace[k]` is the table before `entries[k]` was done and `trace[k+1]`
      the table after it, and the current table sits right after the
      cursor. */
  ghost predicate Traces(l: Log, t: Table, trace: seq<Table>)
  {
    |trace| == |l.entries| + 1 && -1 <= l.cursor < |l.entries|
    && trace[l.cursor + 1] == t
    && forall k {:trigger Fits(l.entries[k], trace[k], trace[k + 1])} ::
         0 <= k < |l.entries| ==> Fits(l.entries[k], trace[k], trace[k + 1])
  }

  /** `p` undos lead from the session's table back to `t`. */
  ghost predicate Undoable(s: Session, t: Table, p: nat)
  {
    p <= s.log.cursor + 1
    && exists trace :: Traces(s.log, s.table, trace) && trace[s.log.cursor + 1 - p] == t
  }

  /** Sound, and the log describes how the table came about. */
  ghost predicate Valid(s: Session)
  {
    Sound(s) && Undoable(s, s.table, 0)
  }

  /** A freshly loaded well-formed table is a valid session. */
  lemma OpenIsValid(t: Table)
    requires WellFormed(t)
    ensures Valid(Open(t))
  {
    assert Traces(Empty, t, [t]);
  }

  /** A push after an edit `c` that led from the current table to `t2`
      extends the trace; every table `p` undos away becomes `p + 1` undos
      away, unless it was evicted. */
  lemma PushTrace(l: Log, t: Table, trace: seq<Table>, c: Command, t2: Table, p: nat)
    requires Bounded(l) && Traces(l, t, trace) && Fits(c, t, t2)
    requires p <= l.cursor + 1 && p < MaxEntries
    ensures p + 1 <= Push(l, c).cursor + 1
    ensures var trace2 := NewTrace(l, trace, t2);
            Traces(Push(l, c), t2, trace2)
            && trace2[Push(l, c).cursor + 1 - (p + 1)] == trace[l.cursor + 1 - p]
  {
    var kept := trace[..l.cursor + 2] + [t2];
    var l2 := Push(l, c);
    var trace2 := NewTrace(l, trace, t2);
    if l.cursor + 2 <= MaxEntries {
      assert trace2 == kept;
      forall k | 0 <= k < |l2.entries|
        ensures Fits(l2.entries[k], trace2[k], trace2[k + 1])
      {
        if k < l.cursor + 1 {
          assert l2.entries[k] == l.entries[k];
          assert Fits(l.entries[k], trace[k], trace[k + 1]);
        }
      }
    } else {
      assert trace2 == kept[1..];
      forall k | 0 <= k < |l2.entries|
        ensures Fits(l2.entries[k], trace2[k], trace2[k + 1])
      {
        if k < l.cursor {
          assert l2.entries[k] == l.entries[k + 1];
          var j := k + 1;
          assert Fits(l.entries[j], trace[j], trace[j + 1]);
        }
      }
    }
  }

  /** The trace after a push: the tables up to the current one, then `t2`,
      without the oldest when the log evicts its oldest entry. */
  ghost function NewTrace(l: Log, trace: seq<Table>, t2: Table): seq<Table>
    requires Bounded(l) && |trace| == |l.entries| + 1
  {
    var kept := trace[..l.cursor + 2] + [t2];
    if l.cursor + 2 <= MaxEntries then kept else kept[1..]
  }

  /** Recording an edit that `c` describes keeps a session valid, and moves
      every earlier table one undo further away. */
  lemma RecordKeepsValid(s: Session, c: Command, s2: Session, t: Table, p: nat)
    requires Valid(s) && Recordable(c, s.table)
    requires s2.table == Apply(c, s.table) && s2.log == Push(s.log, c) && s2.saved == s.saved
    requires s2.modified <==> s2.table != s2.saved
    requires 0 <= s2.view.currentPage < s2.view.totalPages
    requires Undoable(s, t, p) && p < MaxEntries
    ensures Valid(s2) && Undoable(s2, t, p + 1)
  {
    RecordableFits(c, s.table);
    var trace: seq<Table> :| Traces(s.log, s.table, trace) && trace[s.log.cursor + 1 - p] == t;
    PushKeepsUndoable(s.log, s.table, trace, c, s2, t, p);
  }

  /** After a push of `c` onto a log traced from `t0`, the new session's
      table is zero undos away and the table `p` undos away before is
      `p + 1` undos away. */
  lemma PushKeepsUndoable(l: Log, t0: Table, trace: seq<Table>, c: Command, s2: Session, t: Table, p: nat)
    requires Bounded(l) && Traces(l, t0, trace) && Fits(c, t0, s2.table) && s2.log == Push(l, c)
    requires p <= l.cursor + 1 && p < MaxEntries && trace[l.cursor + 1 - p] == t
    ensures Undoable(s2, t, p + 1) && Undoable(s2, s2.table, 0)
  {
    var trace2 := NewTrace(l, trace, s2.table);
    PushTrace(l, t0, trace, c, s2.table, p);
    assert Traces(s2.log, s2.table, trace2);
    UndoableBy(s2, t, p + 1, trace2);
    UndoableBy(s2, s2.table, 0, trace2);
  }

  /** A trace that leads from `t` to the session's table in `p` steps
      witnesses that `p` undos reach `t`. */
  lemma UndoableBy(s: Session, t: Table, p: nat, trace: seq<Table>)
    requires Traces(s.log, s.table, trace) && p <= s.log.cursor + 1
    requires trace[s.log.cursor + 1 - p] == t
    ensures Undoable(s, t, p)
  {
  }

  /** Stepping the cursor back along a trace: the table before the command
      at the cursor is its revert, well formed, and the same trace
      describes the shorter history. */
  lemma TraceBack(l: Log, t: Table, trace: seq<Table>)
    requires Traces(l, t, trace) && CanUndo(l)
    ensures trace[l.cursor] == Revert(l.entries[l.cursor], t) && WellFormed(trace[l.cursor])
    ensures Apply(l.entries[l.cursor], trace[l.cursor]) == t
    ensures Traces(l.(cursor := l.cursor - 1), trace[l.cursor], trace)
  {
    var k := l.cursor;
    assert Fits(l.entries[k], trace[k], trace[k + 1]);
  }

  /** Undo keeps a session valid and brings every earlier table one undo
      closer. */
  lemma UndoKeepsValid(s: Session, t: Table, p: nat)
    requires Valid(s) && Undoable(s, t, p)
    ensures Valid(Undo(s))
    ensures p > 0 ==> Undoable(Undo(s), t, p - 1)
  {
    var trace :| Traces(s.log, s.table, trace) && trace[s.log.cursor + 1 - p] == t;
    if CanUndo(s.log) {
      var r := Undo(s);
      TraceBack(s.log, s.table, trace);
      assert r.log == s.log.(cursor := s.log.cursor - 1) && r.table == trace[s.log.cursor];
      UndoableBy(r, r.table, 0, trace);
      if p > 0 {
        UndoableBy(r, t, p - 1, trace);
      }
    }
  }

  /** Stepping the cursor forward along a trace: the table after the next
      command is its application, well formed, and the same trace describes
      the longer history. */
  lemma TraceForward(l: Log, t: Table, trace: seq<Table>)
    requires Traces(l, t, trace) && CanRedo(l)
    ensures trace[l.cursor + 2] == Apply(l.entries[l.cursor + 1], t) && WellFormed(trace[l.cursor + 2])
    ensures Revert(l.entries[l.cursor + 1], trace[l.cursor + 2]) == t
    ensures Traces(l.(cursor := l.cursor + 1), trace[l.cursor + 2], trace)
  {
    var k := l.cursor + 1;
    assert Fits(l.entries[k], trace[k], trace[k + 1]);
  }

  /** Redo keeps a session valid. */
  lemma RedoKeepsValid(s: Session)
    requires Valid(s)
    ensures Valid(Redo(s))
  {
    var trace :| Traces(s.log, s.table, trace) && trace[s.log.cursor + 1] == s.table;
    if CanRedo(s.log) {
      var r := Redo(s);
      TraceForward(s.log, s.table, trace);
      assert r.log == s.log.(cursor := s.log.cursor + 1) && r.table == trace[s.log.cursor + 2];
      UndoableBy(r, r.table, 0, trace);
    }
  }

  /** Undo followed by redo gives back the table, the log and the modified
      flag. */
  lemma UndoThenRedo(s: Session)
    requires Valid(s) && CanUndo(s.log)
    ensures Redo(Undo(s)).table == s.table
    ensures Redo(Undo(s)).log == s.log
    ensures Redo(Undo(s)).modified == s.modified
  {
    var trace :| Traces(s.log, s.table, trace) && trace[s.log.cursor + 1] == s.table;
    var k := s.log.cursor;
    TraceBack(s.log, s.table, trace);
    var u := Undo(s);
    assert u.table == trace[k] && u.log == s.log.(cursor := k - 1);
    assert CanRedo(u.log) && u.log.entries[u.log.cursor + 1] == s.log.entries[k];
  }

  /** Redo followed by undo gives back the table, the log and the modified
      flag. */
  lemma RedoThenUndo(s: Session)
    requires Valid(s) && CanRedo(s.log)
    ensures Undo(Redo(s)).table == s.table
    ensures Undo(Redo(s)).log == s.log
    ensures Undo(Redo(s)).modified == s.modified
  {
    var trace :| Traces(s.log, s.table, trace) && trace[s.log.cursor + 1] == s.table;
    var k := s.log.cursor + 1;
    TraceForward(s.log, s.table, trace);
    var r := Redo(s);
    assert r.table == trace[k + 1] && r.log == s.log.(cursor := k);
    assert CanUndo(r.log) && r.log.entries[r.log.cursor] == s.log.entries[k];
  }

  // ---------------------------------------------------------------------
  // Every operation keeps a session valid
  // ---------------------------------------------------------------------

  /** The recorded user edits. */
  datatype Edit =
    | SetText(row: nat, col: nat, text: string)
    | NewRow
    | DropRow(index: nat)
    | NewColumn(input: string)
    | DropColumn(index: nat)
    | CopyRow(index: nat)

  /** The edit addresses existing cells, rows or columns and is not one the
      editor refuses or ignores. */
  predicate Effective(s: Session, e: Edit)
  {
    match e
    case SetText(row, col, text) =>
      row < |s.table.rows| && col < |s.table.headers| && col < |s.table.rows[row]| && s.table.rows[row][col] != text
    case NewRow => true
    case DropRow(i) => i < |s.table.rows| && |s.table.rows| > 1
    case NewColumn(_) => true
    case DropColumn(i) => i < |s.table.headers| && |s.table.headers| > 1
    case CopyRow(i) => i < |s.table.rows|
  }

  /** The operation behind each edit. */
  function Perform(s: Session, e: Edit): (r: Session)
    requires Sound(s) && Effective(s, e)
    ensures Bounded(r.log)
  {
    match e
    case SetText(row, col, text) => FinishCellEdit(s, row, col, text)
    case NewRow => AddRow(s)
    case DropRow(i) => DeleteRow(s, i)
    case NewColumn(input) => AddColumn(s, input)
    case DropColumn(i) => DeleteColumn(s, i)
    case CopyRow(i) => DuplicateRow(s, i)
  }

  /** The command each edit records. */
  function Recorded(s: Session, e: Edit): Command
    requires Sound(s) && Effective(s, e)
  {
    match e
    case SetText(row, col, text) => EditCell(row, col, s.table.rows[row][col], text)
    case NewRow => Command.AddRow(|s.table.rows|, Blank(|s.table.headers|))
    case DropRow(i) => Command.DeleteRow(i, s.table.rows[i])
    case NewColumn(input) => AddCol(|s.table.headers|, ColumnName(input, |s.table.headers|))
    case DropColumn(i) => DeleteCol(i, s.table.headers[i], Column(s.table.rows, i))
    case CopyRow(i) => Command.AddRow(i + 1, s.table.rows[i])
  }

  /** The edit `e` did to `s` what pushing and redoing the command it
      records does: `r` holds the command's result, the log has the command
      pushed, the snapshot is kept, the modified flag is current and the
      page is valid. */
  predicate RecordedAs(s: Session, c: Command, r: Session)
    requires Bounded(s.log)
  {
    Recordable(c, s.table) && r.table == Apply(c, s.table) && r.log == Push(s.log, c)
    && r.saved == s.saved && (r.modified <==> r.table != s.saved)
    && 0 <= r.view.currentPage < r.view.totalPages
  }

  /** Each effective edit changes the table exactly as redoing the command
      it records would, pushes that command, and could be undone. */
  lemma PerformIsRecorded(s: Session, e: Edit)
    requires Sound(s) && Effective(s, e)
    ensures Recordable(Recorded(s, e), s.table)
    ensures Perform(s, e).table == Apply(Recorded(s, e), s.table)
    ensures Perform(s, e).log == Push(s.log, Recorded(s, e))
    ensures Perform(s, e).saved == s.saved
    ensures Perform(s, e).modified <==> Perform(s, e).table != s.saved
    ensures 0 <= Perform(s, e).view.currentPage < Perform(s, e).view.totalPages
  {
    match e
    case SetText(row, col, text) => SetTextIsRecorded(s, row, col, text);
    case NewRow => NewRowIsRecorded(s);
    case DropRow(i) => DropRowIsRecorded(s, i);
    case NewColumn(input) => NewColumnIsRecorded(s, input);
    case DropColumn(i) => DropColumnIsRecorded(s, i);
    case CopyRow(i) => CopyRowIsRecorded(s, i);
  }

  lemma SetTextIsRecorded(s: Session, row: nat, col: nat, text: string)
    requires Sound(s) && Effective(s, SetText(row, col, text))
    ensures RecordedAs(s, EditCell(row, col, s.table.rows[row][col], text), FinishCellEdit(s, row, col, text))
  {
  }

  lemma NewRowIsRecorded(s: Session)
    requires Sound(s)
    ensures RecordedAs(s, Command.AddRow(|s.table.rows|, Blank(|s.table.headers|)), AddRow(s))
  {
    var blank := Blank(|s.table.headers|);
    assert InsertAt(s.table.rows, |s.table.rows|, blank) == s.table.rows + [blank];
  }

  lemma DropRowIsRecorded(s: Session, i: nat)
    requires Sound(s) && Effective(s, DropRow(i))
    ensures RecordedAs(s, Command.DeleteRow(i, s.table.rows[i]), DeleteRow(s, i))
  {
  }

  lemma NewColumnIsRecorded(s: Session, input: string)
    requires Sound(s)
    ensures RecordedAs(s, AddCol(|s.table.headers|, ColumnName(input, |s.table.headers|)), AddColumn(s, input))
  {
    AppendColumnIsInsert(s.table, ColumnName(input, |s.table.headers|));
  }

  lemma DropColumnIsRecorded(s: Session, i: nat)
    requires Sound(s) && Effective(s, DropColumn(i))
    ensures RecordedAs(s, DeleteCol(i, s.table.headers[i], Column(s.table.rows, i)), DeleteColumn(s, i))
  {
  }

  lemma CopyRowIsRecorded(s: Session, i: nat)
    requires Sound(s) && Effective(s, CopyRow(i))
    ensures RecordedAs(s, Command.AddRow(i + 1, s.table.rows[i]), DuplicateRow(s, i))
  {
  }

  /** In a well-formed table, appending a column is inserting it after the
      last one. */
  lemma AppendColumnIsInsert(t: Table, name: string)
    requires WellFormed(t)
    ensures InsertColumn(t, |t.headers|, name, Blank(|t.rows|))
            == Table(t.headers + [name], seq(|t.rows|, k requires 0 <= k < |t.rows| => t.rows[k] + [""]))
  {
    var a := InsertColumn(t, |t.headers|, name, Blank(|t.rows|));
    var b := Table(t.headers + [name], seq(|t.rows|, k requires 0 <= k < |t.rows| => t.rows[k] + [""]));
    forall k | 0 <= k < |t.rows|
      ensures a.rows[k] == b.rows[k]
    {
      assert t.rows[k][..|t.headers|] == t.rows[k];
    }
  }

  /** An effective edit keeps a session valid and moves every earlier table
      one undo further away. */
  lemma PerformKeepsValid(s: Session, e: Edit, t: Table, p: nat)
    requires Valid(s) && Effective(s, e)
    requires Undoable(s, t, p) && p < MaxEntries
    ensures Valid(Perform(s, e)) && Undoable(Perform(s, e), t, p + 1)
    ensures Perform(s, e).saved == s.saved
  {
    PerformIsRecorded(s, e);
    RecordKeepsValid(s, Recorded(s, e), Perform(s, e), t, p);
  }

  /** Searching, paging, saving and loading a well-formed table keep a
      session valid. */
  lemma ViewAndFileKeepValid(s: Session, query: string, page: int, t: Table)
    requires Valid(s) && WellFormed(t)
    ensures Valid(Search(s, query))
    ensures Valid(GoTo(s, page))
    ensures Valid(MarkSaved(s))
    ensures Valid(Reload(s, t))
  {
    var trace :| Traces(s.log, s.table, trace) && trace[s.log.cursor + 1] == s.table;
    assert Traces(Search(s, query).log, Search(s, query).table, trace);
    assert Traces(GoTo(s, page).log, GoTo(s, page).table, trace);
    assert Traces(MarkSaved(s).log, MarkSaved(s).table, trace);
    assert Traces(Reload(s, t).log, Reload(s, t).table, [t]);
  }

  // ---------------------------------------------------------------------
  // Undoing a run of edits
  // ---------------------------------------------------------------------

  /** `ss` is the sequence of sessions a user passes through performing the
      edits `es` in order, each of them effective where it is performed. */
  ghost predicate IsRun(ss: seq<Session>, es: seq<Edit>)
  {
    |ss| == |es| + 1
    && forall i :: 0 <= i < |es| ==>
         Sound(ss[i]) && Effective(ss[i], es[i]) && ss[i + 1] == Perform(ss[i], es[i])
  }

  /** The session after `n` presses of undo. */
  function UndoTimes(s: Session, n: nat): (r: Session)
    requires Bounded(s.log)
    ensures Bounded(r.log) && r.saved == s.saved
    decreases n
  {
    if n == 0 then s else UndoTimes(Undo(s), n - 1)
  }

  /** The `k`-th step of a run keeps validity and the snapshot, and moves a
      table `q` undos away to `r == q + 1` undos away. */
  lemma RunStep(ss: seq<Session>, es: seq<Edit>, t: Table, q: nat, r: nat, k: nat)
    requires IsRun(ss, es) && 0 < k <= |es|
    requires Valid(ss[k - 1]) && Undoable(ss[k - 1], t, q) && r == q + 1 && r <= MaxEntries
    ensures Valid(ss[k]) && Undoable(ss[k], t, r) && ss[k].saved == ss[k - 1].saved
  {
    var s, e := ss[k - 1], es[k - 1];
    assert Effective(s, e) && ss[k] == Perform(s, e);
    PerformKeepsValid(s, e, t, q);
  }

  /** Along a run that starts valid, every session is valid, keeps the
      snapshot, and a table `p` undos away at the start is `p + i` undos away
      after `i` edits. */
  lemma {:induction false} RunKeepsValid(ss: seq<Session>, es: seq<Edit>, t: Table, p: nat, i: nat)
    requires IsRun(ss, es) && Valid(ss[0]) && Undoable(ss[0], t, p)
    requires i <= |es| && p + i <= MaxEntries
    ensures Valid(ss[i]) && Undoable(ss[i], t, p + i) && ss[i].saved == ss[0].saved
    decreases i
  {
    if i == 0 {
      assert ss[i] == ss[0] && p + i == p;
    } else {
      RunKeepsValid(ss, es, t, p, i - 1);
      RunStep(ss, es, t, p + (i - 1), p + i, i);
    }
  }

  lemma {:induction false} UndoTimesReaches(s: Session, t: Table, n: nat)
    requires Valid(s) && Undoable(s, t, n)
    ensures Valid(UndoTimes(s, n)) && UndoTimes(s, n).table == t
    decreases n
  {
    UndoKeepsValid(s, t, n);
    if n > 0 {
      UndoTimesReaches(Undo(s), t, n - 1);
    } else {
      var trace :| Traces(s.log, s.table, trace) && trace[s.log.cursor + 1] == t;
    }
  }

  /** Up to 50 edits followed by as many undos give back the table the edits
      started from, with the modified flag it had. */
  lemma UndoEveryEdit(ss: seq<Session>, es: seq<Edit>)
    requires IsRun(ss, es) && Valid(ss[0]) && |es| <= MaxEntries
    ensures Bounded(ss[|es|].log)
    ensures UndoTimes(ss[|es|], |es|).table == ss[0].table
    ensures UndoTimes(ss[|es|], |es|).modified <==> ss[0].table != ss[0].saved
  {
    assert Undoable(ss[0], ss[0].table, 0);
    RunKeepsValid(ss, es, ss[0].table, 0, |es|);
    UndoTimesReaches(ss[|es|], ss[0].table, |es|);
  }

  // ---------------------------------------------------------------------
  // Two operations that break the undo log as written
  // ---------------------------------------------------------------------

  /** Duplicating a row without recording it desynchronises the log: after
      the cell of row 1 is changed from "b" to "c" and row 0 is duplicated,
      undo writes "b" into the copy's neighbour instead of restoring the
      edited cell, producing a table the user never had. The session is no
      longer valid. */
  lemma DuplicateRowAsWrittenBreaksUndo()
    ensures var s0 := Open(Table(["h"], [["a"], ["b"]]));
            var s1 := FinishCellEdit(s0, 1, 0, "c");
            var s2 := DuplicateRowAsWritten(s1, 0);
            s1.table == Table(["h"], [["a"], ["c"]])
            && s2.table == Table(["h"], [["a"], ["a"], ["c"]])
            && Undo(s2).table == Table(["h"], [["a"], ["b"], ["c"]])
            && !Valid(s2)
  {
    var c := EditCell(1, 0, "b", "c");
    var s1 := EditedSession();
    var s2 := DuplicateRowAsWritten(s1, 0);
    assert s2.table.rows == [["a"], ["a"], ["c"]];
    assert s2.log == Log([c], 0);
    var undone := Revert(c, s2.table);
    assert ["a"][0 := "b"] == ["b"];
    assert undone.rows == [["a"], ["b"], ["c"]];
    assert Apply(c, undone).rows[1] == ["c"];
    assert !Fits(c, undone, s2.table);
    OneEntryFits(s2);
  }

  /** A valid session whose log holds a single applied command came from the
      table that reverting that command gives. */
  lemma OneEntryFits(s: Session)
    ensures Undoable(s, s.table, 0) && |s.log.entries| == 1 && s.log.cursor == 0
            ==> Fits(s.log.entries[0], Revert(s.log.entries[0], s.table), s.table)
  {
    if Undoable(s, s.table, 0) && |s.log.entries| == 1 && s.log.cursor == 0 {
      var trace: seq<Table> :| Traces(s.log, s.table, trace) && trace[1] == s.table;
      assert Fits(s.log.entries[0], trace[0], trace[1]);
    }
  }

  /** The session after opening rows "a", "b" and changing "b" to "c". */
  function EditedSession(): (s: Session)
    ensures s == FinishCellEdit(Open(Table(["h"], [["a"], ["b"]])), 1, 0, "c")
    ensures s.table == Table(["h"], [["a"], ["c"]])
    ensures s.log == Log([EditCell(1, 0, "b", "c")], 0)
  {
    var s0 := Open(Table(["h"], [["a"], ["b"]]));
    assert s0.table.rows[1][0] == "b";
    var s := FinishCellEdit(s0, 1, 0, "c");
    assert ["b"][0 := "c"] == ["c"];
    assert s.table.rows == [["a"], ["c"]];
    s
  }

  /** With the duplicate recorded, the same steps undo cleanly: the first
      undo removes the copy and the second restores "b". */
  lemma DuplicateRowUndoes()
    ensures var s0 := Open(Table(["h"], [["a"], ["b"]]));
            var s1 := FinishCellEdit(s0, 1, 0, "c");
            var s2 := DuplicateRow(s1, 0);
            s2.table == Table(["h"], [["a"], ["a"], ["c"]])
            && Undo(s2).table == s1.table
            && Undo(Undo(s2)).table == s0.table
  {
    var s1 := EditedSession();
    var s2 := DuplicateRow(s1, 0);
    assert s2.table.rows == [["a"], ["a"], ["c"]];
    assert s2.log == Log([EditCell(1, 0, "b", "c"), Command.AddRow(1, ["a"])], 1);
    var u1 := Undo(s2);
    assert u1.table.rows == RemoveAt(s2.table.rows, 1) == [["a"], ["c"]];
    assert u1.log == Log([EditCell(1, 0, "b", "c"), Command.AddRow(1, ["a"])], 0);
    var u2 := Undo(u1);
    assert ["c"][0 := "b"] == ["b"];
    assert u2.table.rows == [["a"], ["b"]];
  }

  /** Keeping the log across a reload lets undo replay the previous
      document's commands on the new one: after a row is added to one file
      and another file with rows "p" and "q" is opened, undo deletes "q". */
  lemma ReloadAsWrittenBreaksUndo()
    ensures var s1 := AddRow(Open(Table(["h"], [["a"]])));
            var s2 := ReloadAsWritten(s1, Table(["h"], [["p"], ["q"]]));
            Undo(s2).table == Table(["h"], [["p"]]) && Undo(s2).modified
            && !Valid(s2)
  {
    var c := Command.AddRow(1, [""]);
    var s0 := Open(Table(["h"], [["a"]]));
    assert Blank(1) == [""];
    var s1 := AddRow(s0);
    assert s1.log == Log([c], 0);
    var s2 := ReloadAsWritten(s1, Table(["h"], [["p"], ["q"]]));
    var undone := Revert(c, s2.table);
    assert undone.rows == RemoveAt(s2.table.rows, 1) == [["p"]];
    assert Apply(c, undone).rows == [["p"], [""]];
    assert !Fits(c, undone, s2.table);
    OneEntryFits(s2);
  }

  /** With the log cleared on reload, the freshly opened table is valid and
      undo has nothing to act on. */
  lemma ReloadStartsAfresh(s: Session, t: Table)
    requires WellFormed(t)
    ensures Valid(Reload(s, t))
    ensures !CanUndo(Reload(s, t).log) && !CanRedo(Reload(s, t).log)
    ensures Undo(Reload(s, t)) == Reload(s, t)
  {
    assert Traces(Empty, t, [t]);
  }
}
