/** `detectTypes`: a per-column majority vote over a bounded sample of rows,
    used only to flag cells that do not look like their column's type. */
module TypeDetect {
  import opened Text
  import opened Tables

  /** At most this many leading rows are inspected. */
  const SampleCap: nat := 100

  datatype ColumnType = NumberType | BooleanType | StringType

  /** The number of rows `detectTypes` inspects: `Math.min(rows.length, 100)`. */
  function SampleSize(rows: seq<Row>): (n: nat)
    ensures n <= |rows| && n <= SampleCap
    ensures n == SampleCap || n == |rows|
  {
    if |rows| < SampleCap then |rows| else SampleCap
  }

  /** `rows[i][col]` counts as present: not `''` and not `undefined` (a row
      too short to have the cell). */
  predicate Present(row: Row, col: nat)
  {
    col < |row| && row[col] != ""
  }

  /** The trimmed, case-folded cell reads `true` or `false`. */
  predicate IsBoolText(s: string)
    ensures IsBoolText(s) <==> Lower(JsTrim(s)) == "true" || Lower(JsTrim(s)) == "false"
  {
    FoldsToIsLower(JsTrim(s), "true");
    FoldsToIsLower(JsTrim(s), "false");
    var t := JsTrim(s);
    FoldsTo(t, "true") || FoldsTo(t, "false")
  }

  /** The number of present cells in column `col` of the first `n` rows. */
  function PresentCount(rows: seq<Row>, col: nat, n: nat): (c: nat)
    requires n <= |rows|
    ensures c <= n
  {
    if n == 0 then 0 else PresentCount(rows, col, n - 1) + (if Present(rows[n - 1], col) then 1 else 0)
  }

  /** The number of present cells of column `col` among the first `n` rows
      that `accept` recognises: the numeric test (the source's
      `!isNaN(parseFloat(v)) && isFinite(v)`, a parameter here) or the
      boolean test `IsBoolText`. */
  function AcceptedCount(rows: seq<Row>, col: nat, n: nat, accept: string -> bool): (c: nat)
    requires n <= |rows|
    ensures c <= PresentCount(rows, col, n)
  {
    if n == 0 then 0
    else AcceptedCount(rows, col, n - 1, accept)
         + (if Present(rows[n - 1], col) && accept(rows[n - 1][col]) then 1 else 0)
  }

  /** The decision for one column, with the source's ratio tests
      `numCount / nonEmpty > 0.9` and `boolCount / nonEmpty > 0.9` taken over
      the rationals; the contract restates them over the integers. */
  function Classify(numeric: nat, booleans: nat, present: nat): (t: ColumnType)
    ensures t == NumberType <==> present > 0 && 10 * numeric > 9 * present
    ensures t == BooleanType <==>
              present > 0 && 10 * numeric <= 9 * present && 10 * booleans > 9 * present
    ensures present == 0 ==> t == StringType
  {
    if present > 0 then
      RatioAboveNineTenths(numeric, present);
      RatioAboveNineTenths(booleans, present);
      if numeric as real / present as real > 0.9 then NumberType
      else if booleans as real / present as real > 0.9 then BooleanType
      else StringType
    else StringType
  }

  /** `a / b > 0.9` over the rationals is `10 * a > 9 * b` over the integers. */
  lemma RatioAboveNineTenths(a: nat, b: nat)
    requires b > 0
    ensures a as real / b as real > 0.9 <==> 10 * a > 9 * b
  {
    var A, B := a as real, b as real;
    var q := A / B;
    assert q * B == A;
    if q > 0.9 {
      assert (q - 0.9) * B > 0.0;
      assert 10.0 * A > 9.0 * B;
    } else {
      var gap := 0.9 - q;
      assert gap * B >= 0.0;
      assert 10.0 * A <= 9.0 * B;
    }
  }

  /** The inner loop of `detectTypes` for one column: counts the present,
      numeric and boolean cells among the first `n` rows. */
  method CountColumn(rows: seq<Row>, col: nat, n: nat, isNumeric: string -> bool, isBool: string -> bool)
    returns (present: nat, numeric: nat, booleans: nat)
    requires n <= |rows|
    ensures present == PresentCount(rows, col, n)
    ensures numeric == AcceptedCount(rows, col, n, isNumeric)
    ensures booleans == AcceptedCount(rows, col, n, isBool)
  {
    present, numeric, booleans := 0, 0, 0;
    var i := 0;
    while i < n
      invariant 0 <= i <= n
      invariant present == PresentCount(rows, col, i)
      invariant numeric == AcceptedCount(rows, col, i, isNumeric)
      invariant booleans == AcceptedCount(rows, col, i, isBool)
    {
      var row := rows[i];
      if col < |row| && row[col] != "" {
        present := present + 1;
        if isNumeric(row[col]) {
          numeric := numeric + 1;
        }
        if isBool(row[col]) {
          booleans := booleans + 1;
        }
      }
      i := i + 1;
    }
  }

  /** The type of column `col` as decided from its first `n` cells, given
      the numeric and boolean tests. */
  function ColumnTypeWith(rows: seq<Row>, col: nat, n: nat, isNumeric: string -> bool, isBool: string -> bool): ColumnType
    requires n <= |rows|
  {
    Classify(AcceptedCount(rows, col, n, isNumeric), AcceptedCount(rows, col, n, isBool),
             PresentCount(rows, col, n))
  }

  /** The type `detectTypes` assigns to column `col` of a sample of `n` rows. */
  function ColumnTypeOf(rows: seq<Row>, col: nat, n: nat, isNumeric: string -> bool): ColumnType
    requires n <= |rows|
  {
    ColumnTypeWith(rows, col, n, isNumeric, IsBoolText)
  }

  /** The loops of `detectTypes` with the boolean test as a parameter: one
      type per cell of the first row, each decided from the first `n` rows. */
  method DetectTypesWith(rows: seq<Row>, n: nat, isNumeric: string -> bool, isBool: string -> bool)
    returns (types: seq<ColumnType>)
    requires 0 < |rows| && n <= |rows|
    ensures |types| == |rows[0]|
    ensures forall col :: 0 <= col < |types| ==> types[col] == ColumnTypeWith(rows, col, n, isNumeric, isBool)
  {
    var width := |rows[0]|;
    types := [];
    var col := 0;
    while col < width
      invariant 0 <= col <= width && |types| == col
      invariant forall c :: 0 <= c < col ==> types[c] == ColumnTypeWith(rows, c, n, isNumeric, isBool)
    {
      var nonEmpty, numCount, boolCount := CountColumn(rows, col, n, isNumeric, isBool);
      types := types + [Classify(numCount, boolCount, nonEmpty)];
      col := col + 1;
    }
  }

  /** `detectTypes`: one type per cell of the first row, each decided from
      the first `min(rows.length, 100)` rows only; no rows, no types. */
  method DetectTypes(rows: seq<Row>, isNumeric: string -> bool) returns (types: seq<ColumnType>)
    ensures |rows| == 0 ==> types == []
    ensures |rows| > 0 ==> |types| == |rows[0]|
    ensures forall col :: 0 <= col < |types| ==> types[col] == ColumnTypeOf(rows, col, SampleSize(rows), isNumeric)
  {
    if |rows| == 0 {
      return [];
    }
    types := DetectTypesWith(rows, SampleSize(rows), isNumeric, IsBoolText);
  }

  /** Rows past the hundredth never influence a column's counts. */
  lemma {:induction false} SampleIgnoresLaterRows(rows: seq<Row>, more: seq<Row>, col: nat, n: nat, accept: string -> bool)
    requires n <= |rows|
    ensures PresentCount(rows + more, col, n) == PresentCount(rows, col, n)
    ensures AcceptedCount(rows + more, col, n, accept) == AcceptedCount(rows, col, n, accept)
  {
    if n > 0 {
      SampleIgnoresLaterRows(rows, more, col, n - 1, accept);
      assert (rows + more)[n - 1] == rows[n - 1];
    }
  }

  /** A column whose cells are "1", "2", "3", "x" is 75% numeric and stays a
      string column; "1", "2", "3", "4" is a number column. */
  lemma ThresholdExamples()
    ensures Classify(3, 0, 4) == StringType
    ensures Classify(4, 0, 4) == NumberType
  {
  }
}
