/** The JSON values the Rust back end exchanges with the table: serde_json's
    `Value` and its `Map`, with the two cell conversions `value_to_string`
    and `string_to_value`. */
module JsonValues {
  import opened Base
  import opened Seqs

  /** serde_json's `Value`. A number keeps the text its `Display` prints; an
      object is its sequence of entries in iteration order. */
  datatype Json =
    | Null
    | Bool(b: bool)
    | Num(text: string)
    | Str(s: string)
    | Arr(items: seq<Json>)
    | Obj(members: seq<(string, Json)>)

  /** The parts of serde_json and of Rust's number parsing that are not part
      of this model, supplied as functions:
      `decode` is `serde_json::from_str::<Value>`, `encode` is
      `serde_json::to_string` (whose error is read as `""`, as
      `unwrap_or_default` does), and `number` is the `parse::<i64>` /
      `parse::<f64>` cascade of `string_to_value`, giving the text of the
      resulting number or `None`. */
  datatype Codec = Codec(decode: string -> Result<Json>, encode: Json -> string, number: string -> Option<string>)

  /** `value_to_string`: the text a table cell shows for a JSON value. */
  function ValueToString(v: Json, codec: Codec): (r: string)
    ensures v.Null? ==> r == ""
    ensures v.Bool? ==> r == (if v.b then "true" else "false")
    ensures v.Str? ==> r == v.s
    ensures v.Num? ==> r == v.text
  {
    match v
    case Null => ""
    case Bool(b) => if b then "true" else "false"
    case Num(text) => text
    case Str(s) => s
    case Arr(_) => codec.encode(v)
    case Obj(_) => codec.encode(v)
  }

  /** `string_to_value`: the JSON value a table cell is saved as. The empty
      cell is `null`; text that parses as JSON is that value; otherwise the
      literals `true` and `false`, then numbers, then a plain string. */
  function StringToValue(s: string, codec: Codec): (v: Json)
    ensures s == "" ==> v == Null
    ensures s != "" && codec.decode(s).Ok? ==> v == codec.decode(s).value
    ensures s != "" && codec.decode(s).Err? && s == "true" ==> v == Bool(true)
    ensures s != "" && codec.decode(s).Err? && s == "false" ==> v == Bool(false)
    ensures s != "" && codec.decode(s).Err? && s != "true" && s != "false" && codec.number(s).Some? ==>
              v == Num(codec.number(s).value)
    ensures s != "" && codec.decode(s).Err? && s != "true" && s != "false" && codec.number(s).None? ==> v == Str(s)
  {
    if s == "" then Null
    else
      match codec.decode(s)
      case Ok(v) => v
      case Err(_) =>
        if s == "true" then Bool(true)
        else if s == "false" then Bool(false)
        else
          match codec.number(s)
          case Some(text) => Num(text)
          case None => Str(s)
  }

  /** An empty cell is saved as `null`, and `null` is shown as an empty cell. */
  lemma NullRoundTrip(codec: Codec)
    ensures StringToValue(ValueToString(Null, codec), codec) == Null
    ensures ValueToString(StringToValue("", codec), codec) == ""
  {
  }

  /** Whatever serde makes of the cell text, the value shows that same text
      again: the parsed value (if any) prints back as `s`, and the number
      reading (if any) keeps the digits. */
  predicate ReadsBack(s: string, codec: Codec)
  {
    (codec.decode(s).Ok? ==> ValueToString(codec.decode(s).value, codec) == s)
    && (codec.number(s).Some? ==> codec.number(s).value == s)
  }

  /** A cell whose readings are all faithful survives a save and a reload. */
  lemma CellRoundTrip(s: string, codec: Codec)
    requires ReadsBack(s, codec)
    ensures ValueToString(StringToValue(s, codec), codec) == s
  {
  }

  /** The booleans survive a save and a reload as long as serde either reads
      the literal as that boolean or rejects it. */
  lemma BoolRoundTrip(b: bool, codec: Codec)
    requires codec.decode(if b then "true" else "false") == Ok(Bool(b))
             || codec.decode(if b then "true" else "false").Err?
    ensures StringToValue(ValueToString(Bool(b), codec), codec) == Bool(b)
  {
  }

  /** A string that is not JSON text, not a boolean literal and not a number
      is saved as that very string. */
  lemma PlainStringRoundTrip(s: string, codec: Codec)
    requires s != "" && codec.decode(s).Err? && s != "true" && s != "false" && codec.number(s).None?
    ensures StringToValue(ValueToString(Str(s), codec), codec) == Str(s)
  {
  }

  // ---------------------------------------------------------------------
  // serde_json's `Map`, as a sequence of entries in iteration order.
  // ---------------------------------------------------------------------

  type Entries = seq<(string, Json)>

  /** The keys of a map, in iteration order: `obj.keys()`. */
  function Keys(m: Entries): (ks: seq<string>)
    ensures |ks| == |m|
    ensures forall i :: 0 <= i < |m| ==> ks[i] == m[i].0
  {
    seq(|m|, i requires 0 <= i < |m| => m[i].0)
  }

  /** `obj.get(k)`: the value stored under `k`, from the first entry with
      that key. */
  function Get(m: Entries, k: string): (r: Option<Json>)
    ensures r.None? <==> k !in Keys(m)
    ensures r.Some? ==> r.value == m[FirstIndex(Keys(m), k)].1
    decreases |m|
  {
    if |m| == 0 then None
    else if m[0].0 == k then Some(m[0].1)
    else
      assert Keys(m) == [m[0].0] + Keys(m[1..]);
      Get(m[1..], k)
  }

  /** `obj.insert(k, v)`: an existing key keeps its position and takes the
      new value; a new key goes to the end. */
  function Insert(m: Entries, k: string, v: Json): (r: Entries)
    ensures Keys(r) == if k in Keys(m) then Keys(m) else Keys(m) + [k]
  {
    if k in Keys(m) then
      var r := m[FirstIndex(Keys(m), k) := (k, v)];
      assert Keys(r) == Keys(m);
      r
    else
      var r := m + [(k, v)];
      assert Keys(r) == Keys(m) + [k];
      r
  }

  /** After `obj.insert(k, v)`, `k` reads `v` and every other key reads what
      it read before. */
  lemma InsertGet(m: Entries, k: string, v: Json)
    ensures Get(Insert(m, k, v), k) == Some(v)
    ensures forall j :: j != k ==> Get(Insert(m, k, v), j) == Get(m, j)
  {
    var r := Insert(m, k, v);
    if k in Keys(m) {
      var i := FirstIndex(Keys(m), k);
      assert Keys(r) == Keys(m);
      assert FirstIndex(Keys(r), k) == i;
      forall j | j != k
        ensures Get(r, j) == Get(m, j)
      {
        if j in Keys(m) {
          var p := FirstIndex(Keys(m), j);
          assert p != i;
          FirstIndexIsUnique(Keys(r), j, p);
        }
      }
    } else {
      assert Keys(r) == Keys(m) + [k];
      assert Keys(r)[..|m|] == Keys(m);
      FirstIndexIsUnique(Keys(r), k, |m|);
      forall j | j != k
        ensures Get(r, j) == Get(m, j)
      {
        if j in Keys(m) {
          var p := FirstIndex(Keys(m), j);
          assert Keys(r)[..p] == Keys(m)[..p];
          FirstIndexIsUnique(Keys(r), j, p);
        }
      }
    }
  }

  /** The map built by inserting `pairs` one after another into an empty map. */
  function InsertAll(pairs: Entries): (r: Entries)
    decreases |pairs|
  {
    if |pairs| == 0 then []
    else Insert(InsertAll(pairs[..|pairs| - 1]), pairs[|pairs| - 1].0, pairs[|pairs| - 1].1)
  }

  /** Reference reading of a sequence of insertions: the value of the last
      pair with key `k`. */
  function LastValue(pairs: Entries, k: string): Option<Json>
    decreases |pairs|
  {
    if |pairs| == 0 then None
    else if pairs[|pairs| - 1].0 == k then Some(pairs[|pairs| - 1].1)
    else LastValue(pairs[..|pairs| - 1], k)
  }

  /** Inserting pairs in order yields the keys in first-seen order, each
      exactly once. */
  lemma {:induction false} InsertAllKeys(pairs: Entries)
    ensures Keys(InsertAll(pairs)) == FirstSeen(Keys(pairs))
    decreases |pairs|
  {
    if |pairs| > 0 {
      var init := pairs[..|pairs| - 1];
      var last := pairs[|pairs| - 1];
      KeysOfLast(pairs);
      InsertAllKeys(init);
      FirstSeenSnoc(Keys(init), last.0);
    }
  }

  /** The keys of a map are those of all but its last entry, then the last
      entry's key. */
  lemma KeysOfLast(m: Entries)
    requires |m| > 0
    ensures Keys(m) == Keys(m[..|m| - 1]) + [m[|m| - 1].0]
  {
  }

  /** Inserting pairs in order: a later pair for the same key wins. */
  lemma {:induction false} InsertAllGet(pairs: Entries, k: string)
    ensures Get(InsertAll(pairs), k) == LastValue(pairs, k)
    decreases |pairs|
  {
    if |pairs| > 0 {
      var init := pairs[..|pairs| - 1];
      InsertAllGet(init, k);
      InsertGet(InsertAll(init), pairs[|pairs| - 1].0, pairs[|pairs| - 1].1);
    }
  }

  /** The last value of a key is present exactly when the key occurs. */
  lemma {:induction false} LastValueFound(pairs: Entries, k: string)
    ensures LastValue(pairs, k).Some? <==> k in Keys(pairs)
    decreases |pairs|
  {
    if |pairs| > 0 {
      var init := pairs[..|pairs| - 1];
      LastValueFound(init, k);
      KeysOfLast(pairs);
    }
  }

  /** With distinct keys, inserting pairs in order rebuilds exactly those
      pairs. */
  lemma {:induction false} InsertAllDistinct(pairs: Entries)
    requires NoDup(Keys(pairs))
    ensures InsertAll(pairs) == pairs
    decreases |pairs|
  {
    if |pairs| > 0 {
      var init := pairs[..|pairs| - 1];
      var last := pairs[|pairs| - 1];
      KeysOfPrefix(pairs);
      InsertAllDistinct(init);
      assert init + [(last.0, last.1)] == pairs;
    }
  }

  /** Dropping the last entry of a map with distinct keys keeps them
      distinct, and the dropped key is not among the rest. */
  lemma KeysOfPrefix(pairs: Entries)
    requires |pairs| > 0 && NoDup(Keys(pairs))
    ensures NoDup(Keys(pairs[..|pairs| - 1]))
    ensures pairs[|pairs| - 1].0 !in Keys(pairs[..|pairs| - 1])
  {
    var init := pairs[..|pairs| - 1];
    assert forall i :: 0 <= i < |init| ==> Keys(init)[i] == Keys(pairs)[i];
  }
}
