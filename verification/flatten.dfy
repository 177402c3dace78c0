/** Loading: turning JSON and JSON Lines documents into a header list and a
    row matrix (`sanitize_json_string`, `parse_json`, `parse_jsonl`). Text is
    turned into `Json` values by the codec's `decode`. */
module Flatten {
  import opened Base
  import opened Seqs
  import opened Text
  import opened Tables
  import opened JsonValues

  // ---------------------------------------------------------------------
  // Sanitising
  // ---------------------------------------------------------------------

  /** Rust's `char::is_control`: the C0 controls, DEL and the C1 controls. */
  predicate IsControl(c: char)
  {
    c as int < 0x20 || 0x7F <= c as int <= 0x9F
  }

  /** The three controls the loader keeps. */
  predicate IsLineControl(c: char)
  {
    c == '\n' || c == '\r' || c == '\t'
  }

  /** `sanitize_json_string`: every control character except line feed,
      carriage return and tab becomes a space; nothing else changes. */
  function Sanitize(s: string): (r: string)
    ensures |r| == |s|
    ensures forall k :: 0 <= k < |s| && IsControl(s[k]) && !IsLineControl(s[k]) ==> r[k] == ' '
    ensures forall k :: 0 <= k < |s| && !(IsControl(s[k]) && !IsLineControl(s[k])) ==> r[k] == s[k]
  {
    seq(|s|, k requires 0 <= k < |s| => if IsControl(s[k]) && !IsLineControl(s[k]) then ' ' else s[k])
  }

  /** After sanitising, the only control characters left are line feed,
      carriage return and tab. */
  lemma SanitizeLeavesOnlyLineControls(s: string)
    ensures forall k :: 0 <= k < |s| && IsControl(Sanitize(s)[k]) ==> IsLineControl(Sanitize(s)[k])
  {
  }

  /** Sanitising twice is sanitising once. */
  lemma SanitizeIdempotent(s: string)
    ensures Sanitize(Sanitize(s)) == Sanitize(s)
  {
  }

  // ---------------------------------------------------------------------
  // Lines
  // ---------------------------------------------------------------------

  /** The pieces of `s` between line feeds. */
  function Split(s: string, sep: char): (parts: seq<string>)
    ensures |parts| >= 1
    ensures forall i :: 0 <= i < |parts| ==> sep !in parts[i]
    decreases |s|
  {
    if sep in s then
      var i := FirstIndex(s, sep);
      [s[..i]] + Split(s[i + 1..], sep)
    else [s]
  }

  /** Pieces glued back together with `sep` between them. */
  function Join(parts: seq<string>, sep: char): string
    decreases |parts|
  {
    if |parts| == 0 then ""
    else if |parts| == 1 then parts[0]
    else parts[0] + [sep] + Join(parts[1..], sep)
  }

  /** Splitting loses nothing: the pieces join back into the text. */
  lemma {:induction false} JoinSplit(s: string, sep: char)
    ensures Join(Split(s, sep), sep) == s
    decreases |s|
  {
    if sep in s {
      var i := FirstIndex(s, sep);
      var rest := s[i + 1..];
      JoinSplit(rest, sep);
      assert Split(s, sep) == [s[..i]] + Split(rest, sep);
      assert s == s[..i] + [sep] + rest;
    }
  }

  /** Splitting recovers pieces that contain no separator. */
  lemma {:induction false} SplitJoin(parts: seq<string>, sep: char)
    requires |parts| >= 1
    requires forall i :: 0 <= i < |parts| ==> sep !in parts[i]
    ensures Split(Join(parts, sep), sep) == parts
    decreases |parts|
  {
    if |parts| > 1 {
      var rest := parts[1..];
      SplitJoin(rest, sep);
      SplitAtFirst(parts[0], sep, Join(rest, sep));
      assert parts == [parts[0]] + rest;
    }
  }

  /** Text before the first separator is the first piece. */
  lemma SplitAtFirst(a: string, sep: char, b: string)
    requires sep !in a
    ensures Split(a + [sep] + b, sep) == [a] + Split(b, sep)
  {
    var s := a + [sep] + b;
    assert s[|a|] == sep && s[..|a|] == a;
    FirstIndexIsUnique(s, sep, |a|);
    assert s[|a| + 1..] == b;
  }

  // ---------------------------------------------------------------------
  // Objects to a table
  // ---------------------------------------------------------------------

  /** A loaded document: the header list, the row matrix and the JSON
      layout (`"array"` or `"object"`) remembered for saving. */
  datatype Flat = Flat(headers: seq<string>, rows: seq<Row>, format: string)

  /** The members of the elements of `items` that are objects, in order;
      other elements are skipped. */
  function Objects(items: seq<Json>): (objs: seq<Entries>)
    ensures |objs| <= |items|
    ensures forall m :: m in objs <==> Obj(m) in items
  {
    var opts := seq(|items|, i requires 0 <= i < |items| => ObjectOf(items[i]));
    assert forall m :: Some(m) in opts <==> Obj(m) in items by {
      forall m | Obj(m) in items
        ensures Some(m) in opts
      {
        var i :| 0 <= i < |items| && items[i] == Obj(m);
        assert opts[i] == Some(m);
      }
    }
    Somes(opts)
  }

  /** Objects of a concatenation: those of the first part, then those of
      the second. */
  lemma ObjectsAppend(a: seq<Json>, b: seq<Json>)
    ensures Objects(a + b) == Objects(a) + Objects(b)
  {
    var oa := seq(|a|, i requires 0 <= i < |a| => ObjectOf(a[i]));
    var ob := seq(|b|, i requires 0 <= i < |b| => ObjectOf(b[i]));
    assert seq(|a + b|, i requires 0 <= i < |a + b| => ObjectOf((a + b)[i])) == oa + ob;
    SomesAppend(oa, ob);
  }

  /** One element contributes its members when it is an object and nothing
      otherwise; with `ObjectsAppend`, row `k` of a loaded array belongs to
      its `k`-th object element. */
  lemma ObjectsSingle(v: Json)
    ensures Objects([v]) == if v.Obj? then [v.members] else []
  {
    assert seq(1, i requires 0 <= i < 1 => ObjectOf([v][i])) == [ObjectOf(v)];
    SomesSingle(ObjectOf(v));
  }

  /** The members of a value that is an object. */
  function ObjectOf(v: Json): Option<Entries>
  {
    if v.Obj? then Some(v.members) else None
  }

  /** Every key of every object, in iteration order. */
  function AllKeys(objs: seq<Entries>): (ks: seq<string>)
    ensures forall i, k :: 0 <= i < |objs| && k in Keys(objs[i]) ==> k in ks
    ensures forall k :: k in ks ==> exists i :: 0 <= i < |objs| && k in Keys(objs[i])
    decreases |objs|
  {
    if |objs| == 0 then []
    else
      var init := objs[..|objs| - 1];
      var r := AllKeys(init) + Keys(objs[|objs| - 1]);
      assert forall i :: 0 <= i < |init| ==> objs[i] == init[i];
      r
  }

  /** The text of the cell for header `h` in an object: the value shown by
      `value_to_string`, or `""` for a missing key. */
  function CellOf(obj: Entries, h: string, codec: Codec): (c: string)
    ensures h !in Keys(obj) ==> c == ""
    ensures h in Keys(obj) ==> c == ValueToString(Get(obj, h).value, codec)
  {
    match Get(obj, h)
    case None => ""
    case Some(v) => ValueToString(v, codec)
  }

  /** The table the loader builds from a sequence of objects: the
      first-seen union of their keys, and one row per object. */
  function Tabulate(objs: seq<Entries>, codec: Codec): (r: (seq<string>, seq<Row>))
    ensures NoDup(r.0)
    ensures forall i, k :: 0 <= i < |objs| && k in Keys(objs[i]) ==> k in r.0
    ensures forall j :: 0 <= j < |r.0| ==> exists i :: 0 <= i < |objs| && r.0[j] in Keys(objs[i])
    ensures |r.1| == |objs|
    ensures forall i :: 0 <= i < |objs| ==> |r.1[i]| == |r.0|
    ensures forall i, j :: 0 <= i < |objs| && 0 <= j < |r.0| ==> r.1[i][j] == CellOf(objs[i], r.0[j], codec)
  {
    var headers := FirstSeen(AllKeys(objs));
    FirstSeenMembers(AllKeys(objs));
    (headers, seq(|objs|, i requires 0 <= i < |objs| =>
                    seq(|headers|, j requires 0 <= j < |headers| => CellOf(objs[i], headers[j], codec))))
  }

  /** The headers come in the order in which their keys are first met,
      reading the objects in order and each object's keys in order. */
  lemma HeadersInFirstSeenOrder(objs: seq<Entries>, codec: Codec)
    ensures var h := Tabulate(objs, codec).0;
            forall i, j :: 0 <= i < j < |h| ==> FirstIndex(AllKeys(objs), h[i]) < FirstIndex(AllKeys(objs), h[j])
  {
    FirstSeenOrder(AllKeys(objs));
  }

  /** `parse_json` after serde has produced the value: an array becomes
      one row per object element, an object becomes a Key/Value table, and
      any other value is refused. */
  function FlattenJson(v: Json, codec: Codec): (r: Result<Flat>)
    ensures v.Arr? && |v.items| == 0 ==> r == Ok(Flat([], [], "array"))
    ensures v.Arr? && |v.items| > 0 ==>
              r == Ok(Flat(Tabulate(Objects(v.items), codec).0, Tabulate(Objects(v.items), codec).1, "array"))
    ensures v.Arr? ==> r.Ok? && r.value.format == "array" && |r.value.rows| == |Objects(v.items)|
    ensures v.Arr? ==> WellFormed(Table(r.value.headers, r.value.rows)) && NoDup(r.value.headers)
    ensures v.Obj? ==> r.Ok? && r.value.headers == ["Key", "Value"] && r.value.format == "object"
    ensures v.Obj? ==> |r.value.rows| == |v.members|
                       && forall i :: 0 <= i < |v.members| ==>
                            r.value.rows[i] == [v.members[i].0, ValueToString(v.members[i].1, codec)]
    ensures !v.Arr? && !v.Obj? ==> r == Err("JSON must be an object or array")
  {
    match v
    case Arr(items) =>
      if |items| == 0 then Ok(Flat([], [], "array"))
      else
        var t := Tabulate(Objects(items), codec);
        Ok(Flat(t.0, t.1, "array"))
    case Obj(m) =>
      Ok(Flat(["Key", "Value"], seq(|m|, i requires 0 <= i < |m| => [m[i].0, ValueToString(m[i].1, codec)]), "object"))
    case _ => Err("JSON must be an object or array")
  }

  /** `parse_json`: sanitise, decode, flatten; a decoding error is
      reported with a prefix. */
  function ParseJson(content: string, codec: Codec): (r: Result<Flat>)
    ensures codec.decode(Sanitize(content)).Err? ==>
              r == Err("Failed to parse JSON: " + codec.decode(Sanitize(content)).message)
    ensures codec.decode(Sanitize(content)).Ok? ==> r == FlattenJson(codec.decode(Sanitize(content)).value, codec)
  {
    match codec.decode(Sanitize(content))
    case Err(e) => Err("Failed to parse JSON: " + e)
    case Ok(v) => FlattenJson(v, codec)
  }

  /** The object a line of a JSON Lines file contributes: its trimmed text
      must be non-blank and decode to an object. */
  function LineObject(line: string, codec: Codec): (r: Option<Entries>)
    ensures r.Some? ==> RustTrim(line) != "" && codec.decode(RustTrim(line)) == Ok(Obj(r.value))
    ensures r.None? ==> RustTrim(line) == "" || !(codec.decode(RustTrim(line)).Ok? && codec.decode(RustTrim(line)).value.Obj?)
  {
    var t := RustTrim(line);
    if t == "" then None
    else
      match codec.decode(t)
      case Ok(Obj(m)) => Some(m)
      case _ => None
  }

  /** The objects of the lines that contribute one, in order. */
  function LineObjects(lines: seq<string>, codec: Codec): (objs: seq<Entries>)
    ensures |objs| <= |lines|
  {
    Somes(seq(|lines|, i requires 0 <= i < |lines| => LineObject(lines[i], codec)))
  }

  /** The objects of a concatenation of lines: those of the first lines,
      then those of the rest. */
  lemma LineObjectsAppend(a: seq<string>, b: seq<string>, codec: Codec)
    ensures LineObjects(a + b, codec) == LineObjects(a, codec) + LineObjects(b, codec)
  {
    var oa := seq(|a|, i requires 0 <= i < |a| => LineObject(a[i], codec));
    var ob := seq(|b|, i requires 0 <= i < |b| => LineObject(b[i], codec));
    assert seq(|a + b|, i requires 0 <= i < |a + b| => LineObject((a + b)[i], codec)) == oa + ob;
    SomesAppend(oa, ob);
  }

  /** One line contributes its object, or nothing when it is blank or not
      an object; with `LineObjectsAppend`, row `k` of a loaded JSON Lines
      file belongs to its `k`-th object line. */
  lemma LineObjectsSingle(line: string, codec: Codec)
    ensures LineObjects([line], codec) == if LineObject(line, codec).Some? then [LineObject(line, codec).value] else []
  {
    assert seq(1, i requires 0 <= i < 1 => LineObject([line][i], codec)) == [LineObject(line, codec)];
    SomesSingle(LineObject(line, codec));
  }

  /** `parse_jsonl` (with the `"array"` layout `load_file` attaches):
      blank lines and lines that are not a JSON object are ignored, the rest
      are tabulated as the elements of an array are. The text is split at
      line feeds; `str::lines` also drops a carriage return before the line
      feed and a final empty line, which the trim and the blank-line test
      discard anyway. */
  function ParseJsonl(content: string, codec: Codec): (r: Flat)
    ensures r.format == "array" && NoDup(r.headers) && WellFormed(Table(r.headers, r.rows))
    ensures |r.rows| <= |Split(Sanitize(content), '\n')|
    ensures var t := Tabulate(LineObjects(Split(Sanitize(content), '\n'), codec), codec);
            r.headers == t.0 && r.rows == t.1
  {
    var t := Tabulate(LineObjects(Split(Sanitize(content), '\n'), codec), codec);
    Flat(t.0, t.1, "array")
  }

  /** Lines that are each one JSON object read as exactly those objects. */
  lemma EveryLineAnObject(lines: seq<string>, objs: seq<Entries>, codec: Codec)
    requires |lines| == |objs|
    requires forall i :: 0 <= i < |lines| ==>
               RustTrim(lines[i]) != "" && codec.decode(RustTrim(lines[i])) == Ok(Obj(objs[i]))
    ensures LineObjects(lines, codec) == objs
  {
    var opts := seq(|lines|, i requires 0 <= i < |lines| => LineObject(lines[i], codec));
    forall i | 0 <= i < |lines|
      ensures opts[i] == Some(objs[i])
    {
      LineObjectOf(lines[i], objs[i], codec);
    }
    SomesOfAllSome(opts, objs);
  }

  /** A line whose trimmed text decodes to an object contributes that
      object. */
  lemma LineObjectOf(line: string, m: Entries, codec: Codec)
    requires RustTrim(line) != "" && codec.decode(RustTrim(line)) == Ok(Obj(m))
    ensures LineObject(line, codec) == Some(m)
  {
  }

  /** The objects of an array whose elements are all objects are exactly
      their members. */
  lemma ObjectsOfObjects(items: seq<Json>)
    requires forall i :: 0 <= i < |items| ==> items[i].Obj?
    ensures |Objects(items)| == |items|
    ensures forall i :: 0 <= i < |items| ==> Objects(items)[i] == items[i].members
  {
    var opts := seq(|items|, i requires 0 <= i < |items| => ObjectOf(items[i]));
    SomesOfAllSome(opts, seq(|items|, i requires 0 <= i < |items| => items[i].members));
  }

  /** A JSON Lines file and a JSON array holding the same objects load as
      the same table. */
  lemma LinesAgreeWithArray(lines: seq<string>, items: seq<Json>, codec: Codec)
    requires |lines| == |items| > 0
    requires forall i :: 0 <= i < |lines| ==>
               RustTrim(lines[i]) != "" && items[i].Obj? && codec.decode(RustTrim(lines[i])) == Ok(items[i])
    ensures var t := Tabulate(LineObjects(lines, codec), codec);
            FlattenJson(Arr(items), codec) == Ok(Flat(t.0, t.1, "array"))
  {
    var objs := seq(|items|, i requires 0 <= i < |items| => items[i].members);
    assert Objects(items) == objs by {
      ObjectsOfObjects(items);
    }
    assert LineObjects(lines, codec) == objs by {
      EveryLineAnObject(lines, objs, codec);
    }
  }

  // ---------------------------------------------------------------------
  // Choosing the parser
  // ---------------------------------------------------------------------

  /** The part of `load_file` after the file has been read: the extension,
      case-folded, picks the parser; JSON Lines and CSV tables always carry
      the array layout. The CSV reader is not part of this model and is
      supplied as `csv`. */
  function LoadContent(extension: string, content: string, codec: Codec,
                       csv: string -> Result<(seq<string>, seq<Row>)>): (r: Result<Flat>)
    ensures Lower(extension) == "json" ==> r == ParseJson(content, codec)
    ensures Lower(extension) == "jsonl" ==> r == Ok(ParseJsonl(content, codec))
    ensures Lower(extension) == "csv" ==> (r.Ok? <==> csv(content).Ok?)
    ensures Lower(extension) == "csv" && r.Ok? ==>
              r.value == Flat(csv(content).value.0, csv(content).value.1, "array")
    ensures Lower(extension) !in {"json", "jsonl", "csv"} ==>
              r == Err("Unsupported file type: " + Lower(extension))
  {
    var ext := Lower(extension);
    match ext
    case "json" => ParseJson(content, codec)
    case "jsonl" => Ok(ParseJsonl(content, codec))
    case "csv" =>
      (match csv(content)
       case Ok(t) => Ok(Flat(t.0, t.1, "array"))
       case Err(e) => Err(e))
    case _ => Err("Unsupported file type: " + ext)
  }

  /** The extension's case makes no difference: `DATA.JSON` loads as
      `data.json` does. */
  lemma ExtensionCaseIgnored(extension: string, content: string, codec: Codec,
                             csv: string -> Result<(seq<string>, seq<Row>)>)
    ensures LoadContent(extension, content, codec, csv) == LoadContent(Lower(extension), content, codec, csv)
  {
    LowerIdempotent(extension);
  }
}
