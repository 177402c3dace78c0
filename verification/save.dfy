/** Saving: turning the table back into the JSON values, JSON Lines or CSV
    records that `save_file` writes, and the layout override of
    `export_file`. Serialising those values to text and writing the file are
    not part of this model. */
module Save {
  import opened Base
  import opened Seqs
  import opened Text
  import opened Tables
  import opened JsonValues
  import opened Flatten

  /** `SaveRequest`: where and how to save, and the table to save. */
  datatype SaveRequest = SaveRequest(filePath: string, fileType: string, headers: seq<string>,
                                     rows: seq<Row>, jsonFormat: string)

  /** What `save_file` writes: one JSON document, one JSON object per line,
      or CSV records (the header record first). */
  datatype Written =
    | JsonDocument(doc: Json)
    | JsonLines(lines: seq<Json>)
    | CsvRecords(records: seq<Row>)

  /** `row.get(i).unwrap_or("")`: a missing cell reads as empty. */
  function CellAt(row: Row, i: nat): (c: string)
    ensures i < |row| ==> c == row[i]
    ensures i >= |row| ==> c == ""
  {
    if i < |row| then row[i] else ""
  }

  /** The insertions made for one row: each header with its cell's value. */
  function RowPairs(headers: seq<string>, row: Row, codec: Codec): (p: Entries)
    ensures Keys(p) == headers
    ensures forall i :: 0 <= i < |headers| ==> p[i].1 == StringToValue(CellAt(row, i), codec)
  {
    seq(|headers|, i requires 0 <= i < |headers| => (headers[i], StringToValue(CellAt(row, i), codec)))
  }

  /** One row as the object `save_file` builds for it in array and JSON
      Lines mode. */
  function RowObject(headers: seq<string>, row: Row, codec: Codec): (r: Entries)
    ensures Keys(r) == FirstSeen(headers)
  {
    InsertAllKeys(RowPairs(headers, row, codec));
    InsertAll(RowPairs(headers, row, codec))
  }

  /** A row's object has one key per distinct header, in first-seen order,
      and a repeated header holds the value of its last column. */
  lemma RowObjectShape(headers: seq<string>, row: Row, codec: Codec, h: string)
    ensures Keys(RowObject(headers, row, codec)) == FirstSeen(headers)
    ensures Get(RowObject(headers, row, codec), h) == LastValue(RowPairs(headers, row, codec), h)
  {
    InsertAllKeys(RowPairs(headers, row, codec));
    InsertAllGet(RowPairs(headers, row, codec), h);
  }

  /** The insertions of object mode: the key cell and the value of the value
      cell of every row, skipping rows whose key cell is empty. */
  function KeyValuePairs(rows: seq<Row>, codec: Codec): (p: Entries)
    ensures |p| <= |rows|
    ensures forall i :: 0 <= i < |p| ==> p[i].0 != ""
    decreases |rows|
  {
    if |rows| == 0 then []
    else
      var init := KeyValuePairs(rows[..|rows| - 1], codec);
      var row := rows[|rows| - 1];
      if CellAt(row, 0) == "" then init
      else init + [(CellAt(row, 0), StringToValue(CellAt(row, 1), codec))]
  }

  /** The single object written in object mode. */
  function KeyValueObject(rows: seq<Row>, codec: Codec): (r: Entries)
    ensures Keys(r) == FirstSeen(Keys(KeyValuePairs(rows, codec)))
    ensures "" !in Keys(r)
  {
    InsertAllKeys(KeyValuePairs(rows, codec));
    FirstSeenMembers(Keys(KeyValuePairs(rows, codec)));
    InsertAll(KeyValuePairs(rows, codec))
  }

  /** The layout test of `save_file`: the object layout is used only for a
      table that was loaded as an object and still has exactly the columns
      Key and Value. */
  predicate ObjectLayout(req: SaveRequest)
  {
    req.jsonFormat == "object" && req.headers == ["Key", "Value"]
  }

  /** `save_file`, up to serialisation: what is written for the request, or
      the error for an unknown file type. */
  function SaveContent(req: SaveRequest, codec: Codec): (r: Result<Written>)
    ensures req.fileType !in {"json", "jsonl", "csv"} ==> r == Err("Unsupported file type: " + req.fileType)
    ensures req.fileType == "json" && ObjectLayout(req) ==> r == Ok(JsonDocument(Obj(KeyValueObject(req.rows, codec))))
    ensures req.fileType == "json" && !ObjectLayout(req) ==>
              r.Ok? && r.value.JsonDocument? && r.value.doc.Arr? && |r.value.doc.items| == |req.rows|
              && forall i :: 0 <= i < |req.rows| ==> r.value.doc.items[i] == Obj(RowObject(req.headers, req.rows[i], codec))
    ensures req.fileType == "jsonl" ==>
              r.Ok? && r.value.JsonLines? && |r.value.lines| == |req.rows|
              && forall i :: 0 <= i < |req.rows| ==> r.value.lines[i] == Obj(RowObject(req.headers, req.rows[i], codec))
    ensures req.fileType == "csv" ==> r == Ok(CsvRecords([req.headers] + req.rows))
  {
    match req.fileType
    case "json" =>
      if ObjectLayout(req) then Ok(JsonDocument(Obj(KeyValueObject(req.rows, codec))))
      else Ok(JsonDocument(Arr(RowObjects(req.headers, req.rows, codec))))
    case "jsonl" => Ok(JsonLines(RowObjects(req.headers, req.rows, codec)))
    case "csv" => Ok(CsvRecords([req.headers] + req.rows))
    case _ => Err("Unsupported file type: " + req.fileType)
  }

  /** Every row as its object. */
  function RowObjects(headers: seq<string>, rows: seq<Row>, codec: Codec): (objs: seq<Json>)
    ensures |objs| == |rows|
    ensures forall i :: 0 <= i < |rows| ==> objs[i] == Obj(RowObject(headers, rows[i], codec))
  {
    seq(|rows|, i requires 0 <= i < |rows| => Obj(RowObject(headers, rows[i], codec)))
  }

  /** `export_file`: saving to another path and type, always in the array
      layout. */
  function ExportContent(req: SaveRequest, exportPath: string, exportType: string, codec: Codec): (r: Result<Written>)
    ensures exportType !in {"json", "jsonl", "csv"} ==> r == Err("Unsupported file type: " + exportType)
    ensures exportType == "json" ==> r == Ok(JsonDocument(Arr(RowObjects(req.headers, req.rows, codec))))
    ensures exportType == "jsonl" ==> r == Ok(JsonLines(RowObjects(req.headers, req.rows, codec)))
    ensures exportType == "csv" ==> r == Ok(CsvRecords([req.headers] + req.rows))
  {
    SaveContent(req.(filePath := exportPath, fileType := exportType, jsonFormat := "array"), codec)
  }

  /** An export never writes the object layout, and the layout the table was
      loaded with makes no difference to it. */
  lemma ExportIgnoresLayout(req: SaveRequest, exportPath: string, exportType: string, format: string, codec: Codec)
    ensures ExportContent(req, exportPath, exportType, codec)
            == ExportContent(req.(jsonFormat := format), exportPath, exportType, codec)
    ensures exportType == "json" ==>
              ExportContent(req, exportPath, exportType, codec).Ok?
              && ExportContent(req, exportPath, exportType, codec).value.doc.Arr?
  {
  }

  // ---------------------------------------------------------------------
  // Saving then loading
  // ---------------------------------------------------------------------

  /** Every cell of the table reads back as itself (see `CellRoundTrip`). */
  predicate CellsReadBack(rows: seq<Row>, codec: Codec)
  {
    forall i, j :: 0 <= i < |rows| && 0 <= j < |rows[i]| ==> ReadsBack(rows[i][j], codec)
  }

  /** With distinct headers a row's object lists exactly its cells' values,
      under the headers, in column order. */
  lemma RowObjectOfDistinct(headers: seq<string>, row: Row, codec: Codec)
    requires NoDup(headers)
    ensures RowObject(headers, row, codec) == RowPairs(headers, row, codec)
  {
    InsertAllDistinct(RowPairs(headers, row, codec));
  }

  /** Objects that all have the keys `headers` (distinct) contribute
      exactly those headers, in that order. */
  lemma {:induction false} SameKeysHeaders(objs: seq<Entries>, headers: seq<string>)
    requires |objs| > 0 && NoDup(headers)
    requires forall i :: 0 <= i < |objs| ==> Keys(objs[i]) == headers
    ensures FirstSeen(AllKeys(objs)) == headers
    decreases |objs|
  {
    var init := objs[..|objs| - 1];
    assert AllKeys(objs) == AllKeys(init) + headers;
    if |init| == 0 {
      assert AllKeys(objs) == headers;
      FirstSeenOfDistinct(headers);
    } else {
      SameKeysHeaders(init, headers);
      FirstSeenMembers(AllKeys(init));
      assert Keys(init[0]) == headers;
      FirstSeenAbsorbs(AllKeys(init), headers);
    }
  }

  /** A cell of a row's object reads back as the cell itself. */
  lemma RowCellReadsBack(headers: seq<string>, row: Row, codec: Codec, j: nat)
    requires NoDup(headers) && |row| == |headers| && j < |headers|
    requires ReadsBack(row[j], codec)
    ensures CellOf(RowObject(headers, row, codec), headers[j], codec) == row[j]
  {
    var p := RowPairs(headers, row, codec);
    assert RowObject(headers, row, codec) == p by {
      RowObjectOfDistinct(headers, row, codec);
    }
    assert Get(p, headers[j]) == Some(StringToValue(row[j], codec)) by {
      assert headers[j] !in headers[..j];
      FirstIndexIsUnique(Keys(p), headers[j], j);
    }
    CellRoundTrip(row[j], codec);
  }

  /** Saving a well-formed table with distinct headers as a JSON array and
      loading the array gives back the same table, provided every cell reads
      back as itself and there is at least one row (an empty array loses the
      headers). */
  lemma SaveThenLoadArray(headers: seq<string>, rows: seq<Row>, codec: Codec)
    requires NoDup(headers) && |rows| > 0 && WellFormed(Table(headers, rows))
    requires CellsReadBack(rows, codec)
    ensures FlattenJson(Arr(RowObjects(headers, rows, codec)), codec) == Ok(Flat(headers, rows, "array"))
  {
    var objs := Objects(RowObjects(headers, rows, codec));
    SavedObjects(headers, rows, codec);
    SavedTable(headers, rows, codec, objs);
  }

  /** The objects of the saved array are the rows' objects, each keyed by
      exactly the headers. */
  lemma SavedObjects(headers: seq<string>, rows: seq<Row>, codec: Codec)
    requires NoDup(headers)
    ensures |Objects(RowObjects(headers, rows, codec))| == |rows|
    ensures forall i :: 0 <= i < |rows| ==>
              Objects(RowObjects(headers, rows, codec))[i] == RowObject(headers, rows[i], codec)
              && Keys(RowObject(headers, rows[i], codec)) == headers
  {
    var items := RowObjects(headers, rows, codec);
    ObjectsOfObjects(items);
    forall i | 0 <= i < |rows|
      ensures Keys(RowObject(headers, rows[i], codec)) == headers
    {
      RowObjectOfDistinct(headers, rows[i], codec);
    }
  }

  /** Tabulating the rows' objects gives back the headers and the rows. */
  lemma SavedTable(headers: seq<string>, rows: seq<Row>, codec: Codec, objs: seq<Entries>)
    requires NoDup(headers) && |rows| > 0 && WellFormed(Table(headers, rows))
    requires CellsReadBack(rows, codec)
    requires |objs| == |rows|
    requires forall i :: 0 <= i < |rows| ==>
               objs[i] == RowObject(headers, rows[i], codec) && Keys(RowObject(headers, rows[i], codec)) == headers
    ensures Tabulate(objs, codec).0 == headers
    ensures Tabulate(objs, codec).1 == rows
  {
    SameKeysHeaders(objs, headers);
    SavedRows(headers, rows, codec, objs, Tabulate(objs, codec).1);
  }

  /** The tabulated rows of the rows' objects are the rows. */
  lemma SavedRows(headers: seq<string>, rows: seq<Row>, codec: Codec, objs: seq<Entries>, cells: seq<Row>)
    requires NoDup(headers) && WellFormed(Table(headers, rows))
    requires CellsReadBack(rows, codec)
    requires |objs| == |rows| == |cells|
    requires forall i :: 0 <= i < |rows| ==> objs[i] == RowObject(headers, rows[i], codec)
    requires forall i :: 0 <= i < |rows| ==> |cells[i]| == |headers|
    requires forall i, j :: 0 <= i < |rows| && 0 <= j < |headers| ==> cells[i][j] == CellOf(objs[i], headers[j], codec)
    ensures cells == rows
  {
    forall i | 0 <= i < |rows|
      ensures cells[i] == rows[i]
    {
      SavedRow(headers, rows[i], codec, objs[i], cells[i]);
    }
  }

  /** A tabulated row of a row's object is the row. */
  lemma SavedRow(headers: seq<string>, row: Row, codec: Codec, obj: Entries, cells: Row)
    requires NoDup(headers) && |row| == |headers| && |cells| == |headers|
    requires forall j :: 0 <= j < |row| ==> ReadsBack(row[j], codec)
    requires obj == RowObject(headers, row, codec)
    requires forall j :: 0 <= j < |headers| ==> cells[j] == CellOf(obj, headers[j], codec)
    ensures cells == row
  {
    forall j | 0 <= j < |headers|
      ensures cells[j] == row[j]
    {
      RowCellReadsBack(headers, row, codec, j);
    }
  }

  /** A JSON Lines file written from a table loads back as the same table
      under the same conditions, given a codec that reads each written line
      back as its object. */
  lemma SaveThenLoadLines(headers: seq<string>, rows: seq<Row>, codec: Codec, lines: seq<string>)
    requires NoDup(headers) && |rows| > 0 && WellFormed(Table(headers, rows))
    requires CellsReadBack(rows, codec)
    requires |lines| == |rows|
    requires forall i :: 0 <= i < |lines| ==>
               RustTrim(lines[i]) != "" && codec.decode(RustTrim(lines[i])) == Ok(Obj(RowObject(headers, rows[i], codec)))
    ensures var t := Tabulate(LineObjects(lines, codec), codec); t.0 == headers && t.1 == rows
  {
    var items := RowObjects(headers, rows, codec);
    SaveThenLoadArray(headers, rows, codec);
    LinesAgreeWithArray(lines, items, codec);
  }

  /** In object mode a row with an empty key is dropped, and a key that
      appears on several rows keeps the value of the last of them. */
  lemma {:induction false} KeyValueLastWins(rows: seq<Row>, codec: Codec, k: string)
    ensures k == "" ==> Get(KeyValueObject(rows, codec), k).None?
    ensures Get(KeyValueObject(rows, codec), k) == LastValue(KeyValuePairs(rows, codec), k)
  {
    InsertAllGet(KeyValuePairs(rows, codec), k);
    LastValueFound(KeyValuePairs(rows, codec), k);
  }

  /** A Key/Value table with distinct, non-empty keys whose values read
      back survives a save in object mode and a reload. */
  lemma {:induction false} SaveThenLoadObject(rows: seq<Row>, codec: Codec)
    requires forall i :: 0 <= i < |rows| ==> |rows[i]| == 2 && rows[i][0] != "" && ReadsBack(rows[i][1], codec)
    requires NoDup(Column(rows, 0))
    ensures FlattenJson(Obj(KeyValueObject(rows, codec)), codec) == Ok(Flat(["Key", "Value"], rows, "object"))
  {
    KeyValuePairsAll(rows, codec);
    var p := KeyValuePairs(rows, codec);
    assert Keys(p) == Column(rows, 0);
    InsertAllDistinct(p);
    KeyValueRowsReadBack(rows, p, codec);
  }

  /** The Key/Value rows shown for the pairs of a table are its rows. */
  lemma KeyValueRowsReadBack(rows: seq<Row>, p: Entries, codec: Codec)
    requires forall i :: 0 <= i < |rows| ==> |rows[i]| == 2 && ReadsBack(rows[i][1], codec)
    requires |p| == |rows|
    requires forall i :: 0 <= i < |rows| ==> p[i] == (rows[i][0], StringToValue(rows[i][1], codec))
    ensures FlattenJson(Obj(p), codec) == Ok(Flat(["Key", "Value"], rows, "object"))
  {
    var r := FlattenJson(Obj(p), codec).value;
    forall i | 0 <= i < |rows|
      ensures r.rows[i] == rows[i]
    {
      CellRoundTrip(rows[i][1], codec);
      assert r.rows[i] == [p[i].0, ValueToString(p[i].1, codec)];
      assert rows[i] == [rows[i][0], rows[i][1]];
    }
    assert r.rows == rows;
  }

  /** When no key cell is empty, object mode inserts one pair per row. */
  lemma {:induction false} KeyValuePairsAll(rows: seq<Row>, codec: Codec)
    requires forall i :: 0 <= i < |rows| ==> |rows[i]| == 2 && rows[i][0] != ""
    ensures |KeyValuePairs(rows, codec)| == |rows|
    ensures forall i :: 0 <= i < |rows| ==>
              KeyValuePairs(rows, codec)[i] == (rows[i][0], StringToValue(rows[i][1], codec))
    decreases |rows|
  {
    if |rows| > 0 {
      KeyValuePairsAll(rows[..|rows| - 1], codec);
    }
  }
}
