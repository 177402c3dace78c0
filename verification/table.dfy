/** The editable document: a header list and a row matrix of strings, with
    the in-place edits the editor performs on them. */
module Tables {
  import opened Seqs

  type Row = seq<string>

  /** `state.headers` and `state.rows`. */
  datatype Table = Table(headers: seq<string>, rows: seq<Row>)

  /** Every row is exactly as wide as the header list. */
  predicate WellFormed(t: Table)
  {
    forall k :: 0 <= k < |t.rows| ==> |t.rows[k]| == |t.headers|
  }

  /** `headers.map(() => '')`: a row of empty cells. */
  function Blank(n: nat): (r: Row)
    ensures |r| == n
    ensures forall j :: 0 <= j < n ==> r[j] == ""
  {
    seq(n, _ => "")
  }

  /** `rows[row][col] = v`; a cell that does not exist is left alone. */
  function SetCell(t: Table, row: nat, col: nat, v: string): (r: Table)
    ensures r.headers == t.headers && |r.rows| == |t.rows|
    ensures forall k :: 0 <= k < |t.rows| && k != row ==> r.rows[k] == t.rows[k]
    ensures row < |t.rows| && col < |t.rows[row]| ==>
              r.rows[row] == t.rows[row][col := v]
    ensures !(row < |t.rows| && col < |t.rows[row]|) ==> r == t
  {
    if row < |t.rows| && col < |t.rows[row]| then
      t.(rows := t.rows[row := t.rows[row][col := v]])
    else t
  }

  /** The `i`-th cell of every row, `rows.map(row => row[i])`; a row too
      short to have one contributes an empty cell. */
  function Column(rows: seq<Row>, i: nat): (r: seq<string>)
    ensures |r| == |rows|
    ensures forall k :: 0 <= k < |rows| && i < |rows[k]| ==> r[k] == rows[k][i]
  {
    seq(|rows|, k requires 0 <= k < |rows| => if i < |rows[k]| then rows[k][i] else "")
  }

  /** Inserts a header `name` at `i` and `cells[k]` at `i` of row `k`
      (`splice(i, 0, …)` on the headers and on every row); a row with no
      matching cell receives an empty one. */
  function InsertColumn(t: Table, i: nat, name: string, cells: seq<string>): (r: Table)
    ensures r.headers == InsertAt(t.headers, i, name)
    ensures |r.rows| == |t.rows|
    ensures forall k :: 0 <= k < |t.rows| ==>
              r.rows[k] == InsertAt(t.rows[k], i, if k < |cells| then cells[k] else "")
  {
    Table(InsertAt(t.headers, i, name),
          seq(|t.rows|, k requires 0 <= k < |t.rows| =>
                InsertAt(t.rows[k], i, if k < |cells| then cells[k] else "")))
  }

  /** Removes header `i` and cell `i` of every row (`splice(i, 1)` on the
      headers and on every row). */
  function RemoveColumn(t: Table, i: nat): (r: Table)
    ensures r.headers == RemoveAt(t.headers, i)
    ensures |r.rows| == |t.rows|
    ensures forall k :: 0 <= k < |t.rows| ==> r.rows[k] == RemoveAt(t.rows[k], i)
  {
    Table(RemoveAt(t.headers, i),
          seq(|t.rows|, k requires 0 <= k < |t.rows| => RemoveAt(t.rows[k], i)))
  }
}
