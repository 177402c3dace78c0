/** The linear undo log: `state.history` and `state.historyIndex`. */
module History {
  import opened Commands

  /** At most this many commands are kept; the oldest is evicted first. */
  const MaxEntries: nat := 50

  /** `entries` is `state.history`; `cursor` is `state.historyIndex`, the
      position of the last applied command (-1 when none is applied). */
  datatype Log = Log(entries: seq<Command>, cursor: int)

  const Empty := Log([], -1)

  /** -1 <= historyIndex < history.length <= 50. */
  predicate Bounded(l: Log)
  {
    -1 <= l.cursor < |l.entries| <= MaxEntries
  }

  /** There is an applied command to undo. */
  predicate CanUndo(l: Log)
  {
    l.cursor >= 0
  }

  /** There is an undone command to redo. */
  predicate CanRedo(l: Log)
  {
    l.cursor < |l.entries| - 1
  }

  /** `pushHistory`: drops the undone entries after the cursor, appends `c`,
      and evicts the oldest entry when the log would exceed its cap. */
  function Push(l: Log, c: Command): (r: Log)
    requires Bounded(l)
    ensures Bounded(r)
    ensures r.cursor == |r.entries| - 1 && !CanRedo(r) && CanUndo(r)
    ensures r.entries[r.cursor] == c
    ensures l.cursor + 2 <= MaxEntries ==> r.entries == l.entries[..l.cursor + 1] + [c]
    ensures l.cursor + 2 > MaxEntries ==> r.entries == l.entries[1..l.cursor + 1] + [c]
  {
    var kept := if l.cursor < |l.entries| - 1 then l.entries[..l.cursor + 1] else l.entries;
    var entries := kept + [c];
    var cursor := l.cursor + 1;
    if |entries| > MaxEntries then Log(entries[1..], cursor - 1) else Log(entries, cursor)
  }

  /** The cursor step of `undo`: the applied command it reverts, and the log
      with the cursor moved back over it. */
  function StepBack(l: Log): (r: (Command, Log))
    requires Bounded(l) && CanUndo(l)
    ensures r.0 == l.entries[l.cursor]
    ensures r.1.entries == l.entries && r.1.cursor == l.cursor - 1
    ensures Bounded(r.1) && CanRedo(r.1)
  {
    (l.entries[l.cursor], l.(cursor := l.cursor - 1))
  }

  /** The cursor step of `redo`: the log with the cursor moved onto the next
      undone command, and that command. */
  function StepForward(l: Log): (r: (Command, Log))
    requires Bounded(l) && CanRedo(l)
    ensures r.0 == l.entries[l.cursor + 1]
    ensures r.1.entries == l.entries && r.1.cursor == l.cursor + 1
    ensures Bounded(r.1) && CanUndo(r.1)
  {
    var cursor := l.cursor + 1;
    (l.entries[cursor], l.(cursor := cursor))
  }

  /** A push on a full log with nothing to redo evicts the oldest command,
      which can then no longer be undone. */
  lemma PushEvictsOldest(l: Log, c: Command)
    requires Bounded(l) && |l.entries| == MaxEntries && !CanRedo(l)
    ensures Push(l, c).entries == l.entries[1..] + [c]
    ensures |Push(l, c).entries| == MaxEntries
  {
  }
}
