# DataVisualizer table core in Dafny

DataVisualizer is a desktop editor for tabular data. Its web front end
(`src/main.js`) keeps the open document as a header list and a row matrix of
strings. Every structural edit and cell edit is recorded in a linear undo log
of at most 50 commands. The front end derives a filtered, paginated view and
guesses a type for each column. Its Rust back end (`src-tauri/src/lib.rs`)
turns JSON and JSON Lines files into such a table, and turns the table back
into JSON values when it saves.

This project models that core as pure functions over immutable data:

- `Tables`, `Commands` and `History` hold the document, the five reversible
  commands (`edit_cell`, `add_row`, `delete_row`, `add_col`, `delete_col`)
  with their redo and undo branches, and the log with its cap of 50.
- `Editor` holds the editor session: table, saved snapshot, modified flag,
  log and view. It has the user operations and `undo`/`redo`. Its central
  invariant, `Valid`, says the log really describes how the table came
  about: a trace of tables exists on which every logged command fits. From
  it follow exact undo and redo, and the result that up to 50 edits followed
  by as many undos restore the starting table.
- `View` and `TypeDetect` hold the search filter, the pagination and the
  column-type vote.
- `JsonValues`, `Flatten` and `Save` hold serde's `Value` and `Map`, the cell
  conversions, loading (sanitising, flattening arrays and objects, JSON
  Lines) and saving (row objects, the Key/Value layout, the export
  override). They also hold the save-then-load round trips.
- `Text`, `Seqs` and `Base` hold the shared string and sequence helpers.

Two facts about the code shape the model:

- `detectTypes` (`src/main.js:167-193`) runs only in `loadFile`
  (`src/main.js:195-222`). The column types are not updated when columns are
  later inserted or deleted, so they are not part of the session.
- The header list of a loaded array is the first-seen union of the keys of
  every object element (`src-tauri/src/lib.rs:53-61`).

serde_json's text parsing and printing, and Rust's and JavaScript's number
parsing, are not modelled. They enter as function parameters: the `Codec`
record and the `isNumeric` test. A serde `Map` is modelled as a sequence of
entries in insertion order: an existing key is replaced in place and a new
key is appended, as with serde's `preserve_order` feature.

## Model

| member | source | states |
|---|---|---|
| Seqs.InsertAt | src/main.js:799-800 | `splice(i, 0, x)` puts `x` at position `i` with the prefix and suffix unchanged, and appends when `i` is past the end |
| Seqs.RemoveAt | src/main.js:793-794 | `splice(i, 1)` removes exactly position `i` and is a no-op past the end |
| Seqs.RemoveInserted | src/main.js:793-794 | removing what was just inserted at `i` restores the sequence |
| Seqs.ReinsertRemoved | src/main.js:799-800 | re-inserting a removed element at its position restores the sequence |
| Seqs.FirstSeen | src-tauri/src/lib.rs:53-61 | the push-unless-contained loop yields a duplicate-free list holding exactly the elements met |
| Seqs.FirstSeenSnoc | src-tauri/src/lib.rs:55-58 | one more key extends the list exactly when it is new |
| Seqs.FirstSeenMembers | src-tauri/src/lib.rs:53-61 | an element occurs in the input iff it occurs in the first-seen list |
| Seqs.FirstSeenOrder | src-tauri/src/lib.rs:53-61 | the first-seen list is ordered by first occurrence in the input |
| Seqs.FirstSeenOfDistinct | src-tauri/src/lib.rs:53-61 | a duplicate-free input is its own first-seen list |
| Seqs.FirstSeenAbsorbs | src-tauri/src/lib.rs:53-61 | keys that were all seen already add nothing to the header list |
| Seqs.FirstIndexOfPrefix | src-tauri/src/lib.rs:55-58 | appending a key moves no earlier first occurrence, and a new key is first seen at the end |
| Base.Somes | src-tauri/src/lib.rs:63-71 | a value is kept iff it is present among the options, and there are no more results than options |
| Base.SomesSnoc | src-tauri/src/lib.rs:63-71 | one more option adds its value at the end when present and nothing when absent |
| Base.SomesAppend | src-tauri/src/lib.rs:63-71 | the kept values of a concatenation are those of the first part followed by those of the second |
| Base.SomesSingle | src-tauri/src/lib.rs:63-71 | a single option keeps its value when present and nothing when absent, so every present value is kept once, in input order |
| Base.SomesOfAllSome | src-tauri/src/lib.rs:63-71 | when every input is present, all of them are kept in order |
| Text.TrimStartSpec | src/main.js:618 | trimming the start keeps a suffix, drops only whitespace, and stops at the first other character |
| Text.TrimEndSpec | src/main.js:618 | trimming the end keeps a prefix, drops only whitespace, and stops at the last other character |
| Text.JsTrim | src/main.js:618 | `trim()` returns no longer text that neither starts nor ends with JavaScript whitespace, and is empty iff the input is all whitespace |
| Text.RustTrim | src-tauri/src/lib.rs:93 | `str::trim` returns no longer text that neither starts nor ends with Unicode whitespace, and is empty iff the input is all whitespace |
| Text.TrimSpec | src/main.js:618 | trimmed text neither starts nor ends with whitespace, and it is empty iff the input is all whitespace |
| Text.Lower | src/main.js:491 | case folding keeps the length and folds character by character |
| Text.LowerIdempotent | src-tauri/src/lib.rs:190-194 | folding an already folded extension changes nothing |
| Text.FoldsToIsLower | src/main.js:184 | the character-wise folding test agrees with comparing the folded text |
| Text.Decimal | src/main.js:618 | a column number renders as a non-empty digit string without a leading zero |
| Text.DecimalRoundTrip | src/main.js:618 | reading the rendered digits back gives the column number |
| Tables.Blank | src/main.js:658 | `headers.map(() => '')` is a row of the given width whose cells are all empty |
| Tables.SetCell | src/main.js:546-549 | a cell write changes exactly that cell of that row and leaves the headers and row count alone |
| Tables.Column | src/main.js:640 | `rows.map(row => row[i])` has one entry per row, holding that row's cell `i` |
| Tables.InsertColumn | src/main.js:811-812 | a column insertion splices the header and the matching cell into every row at `i` |
| Tables.RemoveColumn | src/main.js:643-644 | a column removal splices position `i` out of the headers and out of every row |
| Commands.RevertUndoesApply | src/main.js:788-855 | for every command kind, redo then undo restores headers and rows exactly, keeps every row as wide as the headers, and allows a redo again |
| Commands.ApplyRedoesRevert | src/main.js:788-855 | for every command kind, undo then redo restores headers and rows exactly, keeps every row as wide as the headers, and allows an undo again |
| Commands.EditCellRoundTrip | src/main.js:789-791 | writing the new value and then the old one restores the cell |
| Commands.AddColUndone | src/main.js:805-807 | a redone `add_col` leaves an empty column that undo removes exactly |
| Commands.AddColRedone | src/main.js:845-847 | an undone `add_col` comes back exactly on redo when the column was empty |
| Commands.DeleteColUndone | src/main.js:810-812 | a deleted column comes back with its name and every cell on undo |
| Commands.DeleteColRedone | src/main.js:850-852 | re-inserting a column with one cell per row and deleting it again restores the table |
| Commands.ApplyShape | src/main.js:828-855 | redo of `edit_cell` writes the new value into that cell; `add_row` adds one row holding its data at its index; `delete_row` removes one row; `add_col` adds a header with its name at its index; `delete_col` removes one header; row commands keep the headers, column commands keep the row count |
| Commands.RevertShape | src/main.js:788-815 | undo of `edit_cell` writes the old value back; `add_row` removes one row; `delete_row` re-inserts its data at its index; `add_col` removes one header; `delete_col` re-inserts its header name at its index; row commands keep the headers, column commands keep the row count |
| Commands.RecordableFits | src/main.js:788-815 | a command recorded with the data the table holds leads to a table that undo maps back |
| History.Push | src/main.js:768-781 | a push drops the redo branch, puts the command last at the cursor, and keeps the log within 50 by evicting the oldest entry |
| History.StepBack | src/main.js:783-786 | undo takes the command at the cursor (for `Revert` to undo) and moves the cursor back one place, keeping the entries and leaving something to redo |
| History.StepForward | src/main.js:822-826 | redo moves the cursor forward one place onto the next command, leaving something to undo |
| History.PushEvictsOldest | src/main.js:776-779 | on a full log with nothing to redo, a push evicts the oldest command and keeps 50 |
| TypeDetect.SampleSize | src/main.js:171 | at most the first 100 rows, and all rows when there are fewer |
| TypeDetect.IsBoolText | src/main.js:184 | a cell counts as boolean iff its trimmed, lower-cased text is `true` or `false` |
| TypeDetect.PresentCount | src/main.js:178-181 | the non-empty count never exceeds the sample |
| TypeDetect.AcceptedCount | src/main.js:183-184 | numeric and boolean counts never exceed the non-empty count |
| TypeDetect.Classify | src/main.js:187-190 | `number` iff numeric cells exceed 90% of the non-empty ones; `boolean` iff that fails and boolean cells exceed 90%; `string` otherwise, also when no cell is non-empty |
| TypeDetect.RatioAboveNineTenths | src/main.js:188-189 | `a / b > 0.9` over the reals is `10 * a > 9 * b` over the integers |
| TypeDetect.CountColumn | src/main.js:174-185 | the inner loop counts exactly the non-empty, numeric and boolean cells of the sample |
| TypeDetect.DetectTypesWith | src/main.js:168-192 | one type per cell of the first row, each the vote over the sample's cells in that column |
| TypeDetect.DetectTypes | src/main.js:167-193 | no rows give no types; otherwise one type per first-row cell, decided from the first `min(n, 100)` rows |
| TypeDetect.SampleIgnoresLaterRows | src/main.js:171-179 | rows beyond the sample never change a column's counts |
| TypeDetect.ThresholdExamples | src/main.js:187-190 | 3 numeric cells out of 4 stay a string column, and 4 out of 4 make a number column |
| View.RowMatches | src/main.js:497 | only a row with a cell can match, and an empty needle matches every non-empty row |
| View.Visible | src/main.js:495-497 | an empty query shows every row; any other query shows exactly the rows with a matching cell |
| View.Filter | src/main.js:490-499 | the filter keeps no more rows than there are |
| View.FilterKeepsOnlyVisibleRowsInOrder | src/main.js:490-499 | every kept entry is a matching row paired with its own original index, and the indices increase |
| View.FilterKeepsEveryVisibleRow | src/main.js:490-499 | every matching row is kept |
| View.EmptyQueryKeepsEveryRow | src/main.js:494-496 | an empty query keeps every row at its own index |
| View.SearchExample | src/main.js:490-499 | searching "b" keeps the two rows with a cell containing "b", in order, with their indices |
| View.NotContained | src/main.js:497 | a one-letter cell does not contain a different one-letter query |
| View.TotalPages | src/main.js:326 | the fewest pages of 100 that hold the rows, and at least one |
| View.UpdatePagination | src/main.js:324-336 | the page count is recomputed and the current page is clamped into range, unchanged when it already was |
| View.GoToPage | src/main.js:351-353 | only a page inside `[0, totalPages)` is accepted; any other leaves the view unchanged |
| View.PageSlice | src/main.js:405-409 | the page shows at most 100 entries, those starting at `page * 100`, and nothing past the end |
| View.EveryRowOnItsPage | src/main.js:405-409 | every visible row appears on one valid page, at position `i % 100` of page `i / 100` |
| View.ThirdPageOfTwoHundredFifty | src/main.js:324-336 | 250 rows make three pages, the last holding rows 201 to 250 |
| JsonValues.ValueToString | src-tauri/src/lib.rs:147-156 | null shows as empty, booleans as `true`/`false`, numbers by their text and strings as themselves |
| JsonValues.StringToValue | src-tauri/src/lib.rs:158-184 | the empty cell is null; JSON text is its value; otherwise `true` and `false` are booleans, then a parsed number is a number, and anything else stays a string |
| JsonValues.NullRoundTrip | src-tauri/src/lib.rs:149-161 | null survives a save and a reload, and the empty cell too |
| JsonValues.CellRoundTrip | src-tauri/src/lib.rs:147-184 | a cell whose readings print back as itself survives a save and a reload |
| JsonValues.BoolRoundTrip | src-tauri/src/lib.rs:150-171 | a boolean survives when serde reads its literal as that boolean or rejects it |
| JsonValues.PlainStringRoundTrip | src-tauri/src/lib.rs:152-183 | a string that is not JSON, a boolean literal or a number is saved as that string |
| JsonValues.Keys | src-tauri/src/lib.rs:55 | `obj.keys()` lists one key per entry, in order |
| JsonValues.Get | src-tauri/src/lib.rs:67 | `obj.get(k)` is absent exactly for a missing key, and otherwise reads the key's entry |
| JsonValues.Insert | src-tauri/src/lib.rs:256 | an insert keeps the key order, adding a new key at the end |
| JsonValues.InsertGet | src-tauri/src/lib.rs:256 | after an insert the key reads the new value and every other key reads what it read before |
| JsonValues.InsertAllKeys | src-tauri/src/lib.rs:254-257 | inserting pairs in order gives the keys in first-seen order |
| JsonValues.KeysOfLast | src-tauri/src/lib.rs:254-257 | the keys of a map end with the key of its last entry |
| JsonValues.InsertAllGet | src-tauri/src/lib.rs:236-241 | after a run of inserts, a key reads the value of its last insertion |
| JsonValues.LastValueFound | src-tauri/src/lib.rs:236-241 | a key has a last value iff it was inserted |
| JsonValues.InsertAllDistinct | src-tauri/src/lib.rs:253-258 | inserts with distinct keys rebuild exactly the pairs |
| JsonValues.KeysOfPrefix | src-tauri/src/lib.rs:253-258 | dropping the last entry of a map with distinct keys keeps them distinct |
| Flatten.Sanitize | src-tauri/src/lib.rs:25-36 | sanitising keeps the length, turns every control character except `\n`, `\r` and `\t` into a space, and leaves every other character alone |
| Flatten.SanitizeLeavesOnlyLineControls | src-tauri/src/lib.rs:25-36 | after sanitising, the only control characters left are `\n`, `\r` and `\t` |
| Flatten.SanitizeIdempotent | src-tauri/src/lib.rs:25-36 | sanitising twice is sanitising once |
| Flatten.Split | src-tauri/src/lib.rs:92 | the text splits into at least one line, and no line holds a line feed |
| Flatten.JoinSplit | src-tauri/src/lib.rs:92 | splitting into lines loses no text |
| Flatten.SplitJoin | src-tauri/src/lib.rs:92 | lines without line feeds, joined and split again, come back |
| Flatten.SplitAtFirst | src-tauri/src/lib.rs:92 | the text before the first line feed is the first line |
| Flatten.Objects | src-tauri/src/lib.rs:63-64 | the object elements of an array are kept and all other elements skipped |
| Flatten.ObjectsAppend | src-tauri/src/lib.rs:63-64 | the objects of a concatenation are those of the first part followed by those of the second |
| Flatten.ObjectsSingle | src-tauri/src/lib.rs:64 | one element contributes its members when it is an object and nothing otherwise, so row `k` belongs to the `k`-th object element |
| Flatten.AllKeys | src-tauri/src/lib.rs:53-60 | every key of every object is collected, and nothing else |
| Flatten.CellOf | src-tauri/src/lib.rs:67 | a missing key gives `""`; a present key gives the text of its value |
| Flatten.Tabulate | src-tauri/src/lib.rs:50-73 | duplicate-free headers holding exactly the objects' keys; one row per object, each as wide as the headers, with each cell read from its object |
| Flatten.HeadersInFirstSeenOrder | src-tauri/src/lib.rs:53-61 | the headers come in the order their keys are first met |
| Flatten.FlattenJson | src-tauri/src/lib.rs:44-84 | an empty array gives no headers, no rows and the array layout; a non-empty array gives exactly the table tabulated from its object elements, in order, with the array layout; an object gives a Key/Value row per entry with the object layout; any other value is an error |
| Flatten.ParseJson | src-tauri/src/lib.rs:38-85 | the text is sanitised and decoded; a decoding error is reported with its prefix, and a value is flattened |
| Flatten.LineObject | src-tauri/src/lib.rs:92-98 | a line contributes an object exactly when its trimmed text is non-blank and decodes to an object |
| Flatten.LineObjects | src-tauri/src/lib.rs:92-98 | no more objects than lines |
| Flatten.LineObjectsAppend | src-tauri/src/lib.rs:107-113 | the objects of a concatenation of lines are those of the first lines followed by those of the rest |
| Flatten.LineObjectsSingle | src-tauri/src/lib.rs:107-113 | one line contributes its object, or nothing when it is blank or not an object, so row `k` belongs to the `k`-th object line |
| Flatten.ParseJsonl | src-tauri/src/lib.rs:87-123 | the table is exactly the one tabulated from the lines' objects, in the array layout, with duplicate-free headers and rows as wide as them |
| Flatten.EveryLineAnObject | src-tauri/src/lib.rs:92-119 | lines that each decode to an object contribute exactly those objects |
| Flatten.LineObjectOf | src-tauri/src/lib.rs:93-98 | a line whose trimmed text decodes to an object contributes it |
| Flatten.ObjectsOfObjects | src-tauri/src/lib.rs:63-64 | an array of objects keeps every element |
| Flatten.LinesAgreeWithArray | src-tauri/src/lib.rs:87-123 | a JSON Lines file and a JSON array of the same objects load as the same table |
| Flatten.LoadContent | src-tauri/src/lib.rs:190-213 | the case-folded extension picks the parser; JSON Lines and CSV get the array layout; any other extension is an error naming it |
| Flatten.ExtensionCaseIgnored | src-tauri/src/lib.rs:190-194 | an extension loads the same whatever its case |
| Save.CellAt | src-tauri/src/lib.rs:255 | a missing cell reads as empty |
| Save.RowPairs | src-tauri/src/lib.rs:254-257 | one insertion per header, in header order, carrying that column's cell value |
| Save.RowObjectShape | src-tauri/src/lib.rs:249-258 | a row's object has one key per distinct header, in first-seen order, and a repeated header holds its last column's value |
| Save.RowObject | src-tauri/src/lib.rs:252-259 | a row's object has the distinct headers as keys, in first-seen order |
| Save.KeyValuePairs | src-tauri/src/lib.rs:236-241 | object mode inserts at most one pair per row and never an empty key |
| Save.KeyValueObject | src-tauri/src/lib.rs:235-242 | the object-mode object has the non-empty key cells as keys, each once, in first-seen order |
| Save.SaveContent | src-tauri/src/lib.rs:224-305 | `json` writes the Key/Value object only for that layout and otherwise one object per row; `jsonl` writes one object per row; `csv` writes the header record then the rows; any other type is an error |
| Save.RowObjects | src-tauri/src/lib.rs:249-260 | one object per row, in row order |
| Save.ExportContent | src-tauri/src/lib.rs:307-318 | an export to `json` always writes the array of row objects, `jsonl` the row objects, `csv` the header and rows; any other type is an error naming it |
| Save.ExportIgnoresLayout | src-tauri/src/lib.rs:307-318 | an export never uses the object layout, whatever layout the table was loaded with |
| Save.RowObjectOfDistinct | src-tauri/src/lib.rs:253-258 | with distinct headers a row's object lists its cells' values under the headers in column order |
| Save.SameKeysHeaders | src-tauri/src/lib.rs:53-61 | objects that all have the same distinct keys load with exactly those headers |
| Save.RowCellReadsBack | src-tauri/src/lib.rs:65-67 | a cell of a saved row reads back as the cell |
| Save.SaveThenLoadArray | src-tauri/src/lib.rs:249-258 | a table with distinct headers, at least one row and cells that read back survives a save as a JSON array and a reload |
| Save.SavedObjects | src-tauri/src/lib.rs:249-258 | the saved array holds one object per row, keyed by exactly the headers |
| Save.SavedTable | src-tauri/src/lib.rs:50-73 | loading those objects gives back the headers and the rows |
| Save.SavedRows | src-tauri/src/lib.rs:63-71 | the loaded rows are the saved rows |
| Save.SavedRow | src-tauri/src/lib.rs:65-68 | a loaded row is its saved row |
| Save.SaveThenLoadLines | src-tauri/src/lib.rs:272-277 | a JSON Lines file written from such a table loads back as the same table |
| Save.KeyValueLastWins | src-tauri/src/lib.rs:236-241 | in object mode an empty key is dropped and a repeated key keeps its last row's value |
| Save.SaveThenLoadObject | src-tauri/src/lib.rs:230-241 | a Key/Value table with distinct non-empty keys and values that read back survives a save in object mode and a reload |
| Save.KeyValueRowsReadBack | src-tauri/src/lib.rs:75-81 | reloading the object shows each pair as its Key/Value row |
| Save.KeyValuePairsAll | src-tauri/src/lib.rs:236-241 | with no empty key, object mode inserts one pair per row, in order |
| Editor.CheckModified | src/main.js:934-939 | the session is modified iff its headers or rows differ from the saved snapshot, and nothing else changes |
| Editor.Paginate | src/main.js:324-336 | the page count fits the visible rows and the current page is valid |
| Editor.Record | src/main.js:768-781 | the command is pushed and the modified flag recomputed for the new table |
| Editor.FinishCellEdit | src/main.js:541-564 | an unchanged value changes nothing; otherwise exactly that cell is set and an `edit_cell` with the old and new value is pushed |
| Editor.AddRow | src/main.js:657-683 | a row of empty cells is appended, recorded at the last index, and the last page is shown |
| Editor.DeleteRow | src/main.js:689-708 | refused with one row left; otherwise exactly row `i` is removed and recorded with its cells |
| Editor.ColumnName | src/main.js:618 | the trimmed input, or `column` and the new column count when it is blank; never empty |
| Editor.AddColumn | src/main.js:617-632 | the header goes last, every row gets an empty last cell, and the new column's index is recorded |
| Editor.DeleteColumn | src/main.js:634-655 | refused with one column left; otherwise the column is removed and recorded with its name and cells |
| Editor.DuplicateRow | src/main.js:710-718 | the copy goes right after row `i` and is recorded as an `add_row` there |
| Editor.DuplicateRowAsWritten | src/main.js:710-718 | the copy goes right after row `i` and the log is left unchanged |
| Editor.Undo | src/main.js:783-820 | a no-op with nothing to undo; otherwise the command at the cursor is reverted, the cursor steps back, the log is not pushed, and the modified flag is recomputed |
| Editor.Redo | src/main.js:822-859 | a no-op with nothing to redo; otherwise the next command is applied, the cursor steps forward, the log is not pushed, and the modified flag is recomputed |
| Editor.Search | src/main.js:761-766 | a new query starts again at the first page and leaves the table and log alone |
| Editor.GoTo | src/main.js:351-357 | only a valid page is accepted; any other leaves the session unchanged |
| Editor.MarkSaved | src/main.js:258-260 | after a save the table is the snapshot and the session is not modified |
| Editor.Reload | src/main.js:201-212 | the loaded table becomes the table and the snapshot, the session is not modified, and the log is cleared |
| Editor.ReloadAsWritten | src/main.js:201-212 | the loaded table becomes the table and the snapshot, and the previous document's log is kept |
| Editor.OpenIsValid | src/main.js:201-212 | a freshly loaded well-formed table is a valid session |
| Editor.PushTrace | src/main.js:768-781 | a push extends the trace; a table `p` undos away becomes `p + 1` undos away unless it was evicted |
| Editor.RecordKeepsValid | src/main.js:768-781 | recording an edit its command describes keeps the session valid and moves every earlier table one undo further |
| Editor.PushKeepsUndoable | src/main.js:768-781 | after a push the new table is zero undos away and every earlier table one undo further |
| Editor.UndoableBy | src/main.js:783-820 | a trace leading back to a table in `p` steps shows that `p` undos reach it |
| Editor.TraceBack | src/main.js:783-820 | the table before the command at the cursor is that command's undo, and the same trace describes the shorter history |
| Editor.UndoKeepsValid | src/main.js:783-820 | undo keeps the session valid and brings every earlier table one undo closer |
| Editor.TraceForward | src/main.js:822-859 | the table after the next command is that command's redo, and the same trace describes the longer history |
| Editor.RedoKeepsValid | src/main.js:822-859 | redo keeps the session valid |
| Editor.UndoThenRedo | src/main.js:783-859 | undo then redo gives back the table, the log and the modified flag |
| Editor.RedoThenUndo | src/main.js:783-859 | redo then undo gives back the table, the log and the modified flag |
| Editor.Perform | src/main.js:541-718 | every edit leaves the log within its bounds |
| Editor.PerformIsRecorded | src/main.js:541-718 | each effective edit changes the table exactly as redoing the command it pushes would, keeps the snapshot, updates the modified flag and keeps the page valid |
| Editor.SetTextIsRecorded | src/main.js:541-564 | a changed cell is what redoing its `edit_cell` gives |
| Editor.NewRowIsRecorded | src/main.js:657-683 | an added row is what redoing its `add_row` gives |
| Editor.DropRowIsRecorded | src/main.js:689-708 | a deleted row is what redoing its `delete_row` gives |
| Editor.NewColumnIsRecorded | src/main.js:617-632 | an added column is what redoing its `add_col` gives |
| Editor.DropColumnIsRecorded | src/main.js:634-655 | a deleted column is what redoing its `delete_col` gives |
| Editor.CopyRowIsRecorded | src/main.js:710-718 | a recorded duplicate is what redoing its `add_row` gives |
| Editor.AppendColumnIsInsert | src/main.js:620-621 | pushing a header and an empty cell onto every row is inserting a column after the last one |
| Editor.PerformKeepsValid | src/main.js:541-718 | every effective edit keeps the session valid, keeps the snapshot, and moves every earlier table one undo further |
| Editor.ViewAndFileKeepValid | src/main.js:195-357 | searching, paging, saving and loading a well-formed table keep the session valid |
| Editor.UndoTimes | src/main.js:783-820 | repeated undos keep the log within its bounds and keep the snapshot |
| Editor.RunStep | src/main.js:541-718 | each step of a run of edits keeps the session valid and keeps the snapshot |
| Editor.RunKeepsValid | src/main.js:541-718 | along a run of edits every session is valid, keeps the snapshot, and a starting table is one more undo away after each edit |
| Editor.UndoTimesReaches | src/main.js:783-820 | `n` undos from a valid session reach the table `n` undos away |
| Editor.UndoEveryEdit | src/main.js:768-820 | up to 50 effective edits followed by as many undos restore the starting table and its modified flag |
| Editor.DuplicateRowAsWrittenBreaksUndo | src/main.js:710-718 | with the duplicate unrecorded, undo writes the old value into the wrong row and the session is no longer valid |
| Editor.OneEntryFits | src/main.js:783-820 | when the current table is reached by a trace of a single applied command, that command leads from its undo to the table |
| Editor.EditedSession | src/main.js:541-564 | opening rows "a", "b" and setting "b" to "c" records one `edit_cell` |
| Editor.DuplicateRowUndoes | src/main.js:710-718 | with the duplicate recorded, two undos remove the copy and then restore the edited cell |
| Editor.ReloadAsWrittenBreaksUndo | src/main.js:195-212 | with the log kept across a reload, undo deletes a row of the new document and the session is no longer valid |
| Editor.ReloadStartsAfresh | src/main.js:195-212 | with the log cleared, the reloaded session is valid and has nothing to undo or redo |

## Left out

- Rendering, the DOM, modals, toasts, keyboard handling and the Tauri
  `invoke` and dialog calls: they do not change the document.
- File I/O in `load_file`, `save_file` and `export_file`, and the text
  serde writes. `SaveContent` stops at the values written.
- `parse_csv` and the CSV writer wrap the `csv` crate, which is not part of
  this model. `LoadContent` takes the CSV reader as a parameter.
- serde_json's text parsing and printing. They enter through `Codec`. The
  `to_string_pretty` and write errors of `save_file` are not modelled.
- Floating-point parsing: `parseFloat`/`isFinite` in `detectTypes` and
  `parse::<i64>`/`parse::<f64>` in `string_to_value` are parameters.
- `editHeader` changes a header without recording it, and is DOM-driven.
- `createNewFile` is a fixed state assignment outside the edit and undo
  discipline.
- The column types are not kept in the session. The code computes them only
  in `loadFile`.
- JavaScript arrays are shared by reference (`command.rowData` is re-inserted
  as the same array). The model uses value semantics.
- Text.Lower: folds ASCII letters only. JavaScript's `toLowerCase` folds all
  of Unicode, so the search filter is exact only for ASCII text.
- Flatten.LoadContent: folds the extension with the ASCII-only `Lower`.
  `to_lowercase` folds all of Unicode, so for a non-ASCII extension such as
  `ÄBC` the error names `ÄBC` where the source names `äbc`. The three
  supported extensions are recognised exactly as the source does.
- Flatten.ParseJsonl: splits at line feeds. `str::lines` also drops a
  carriage return before a line feed and a final empty line; both give
  blank or trimmed lines that are discarded anyway.
- JsonValues.Insert: models serde's `Map` in insertion order
  (`preserve_order`). The default sorted map would order keys differently.
- Tables.SetCell: writing a cell that does not exist changes nothing. In
  JavaScript a missing row throws and a missing column extends the row.
- Undoing a `delete_col` whose `colData` is shorter than the rows would
  re-insert `undefined`. The model inserts `""`.
- Editor.FinishCellEdit: requires the edited cell to exist. The source takes
  row and column from the cell being edited, and a missing row would throw.
- Editor.DeleteRow: requires an existing row. The source's copy of a
  missing row throws.
- Editor.DuplicateRow: requires an existing row, for the same reason.
- Editor.OpenIsValid: requires a well-formed table, where every row is as
  wide as the headers. `parse_csv` reads with `flexible(true)`
  (`src-tauri/src/lib.rs:126-128`) and can load ragged rows. JavaScript
  then reads missing cells as `undefined` and extends short rows on a write.
  The model does not follow those, so the undo guarantees say nothing about
  a ragged table.
- Editor.ViewAndFileKeepValid: requires a well-formed reloaded table, for
  the same reason.
- Editor.ReloadStartsAfresh: requires a well-formed reloaded table, for the
  same reason.
- Editor.UndoEveryEdit: starts from a valid session, so its table is well
  formed; a ragged CSV table is not covered.
- Editor.DeleteColumn: requires an existing column. The source is only
  called from a header's menu; an index past the end would record a
  command while changing nothing.
- TypeDetect.DetectTypes: cells that are `null` or `undefined` count as
  empty, as rows too short to hold the column do. The table model has only
  strings.

## Findings

| source | as written | input that shows it | evidently intended | confidence | as-written member | corrected member |
|---|---|---|---|---|---|---|
| src/main.js:710-718 | `duplicateRow` inserts the copy but pushes no history entry | open rows "a", "b"; change "b" to "c"; duplicate row 0; undo | the duplicate is recorded as an `add_row` right after the original, like every other row insertion | high, not executed | Editor.DuplicateRowAsWrittenBreaksUndo | Editor.DuplicateRowUndoes |
| src/main.js:195-212 | `loadFile` replaces headers and rows but keeps `history` and `historyIndex` | add a row to a one-row file; open a file with rows "p", "q"; undo | loading a document starts a fresh history | medium, not executed | Editor.ReloadAsWrittenBreaksUndo | Editor.ReloadStartsAfresh |

The rest of the model uses the corrected `Editor.DuplicateRow` and
`Editor.Reload`. `Editor.PerformKeepsValid` proves that the recorded
duplicate keeps every session valid.
