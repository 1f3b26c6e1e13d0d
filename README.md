# Initiative board: a verified model of its board logic

The initiative tracker shows work items ("initiatives") on a board with
one column per lifecycle stage: `DEV`, `QA`, `DEMO`, `UAT`,
`Change Ticket`, `PROD`. The board state has two parts. `columns` maps a
column key to an ordered list of initiative ids. `initiatives` maps an id
to its record: title, description, status and dependency ids.

This project models the operations of `src/App.js` that read or change
that state, and proves properties about them:

- loading a saved board: `migrateBoard` for an old stage vocabulary, and
  the stage completion in `getInitialBoard`;
- moving a card by drag and drop (`handleDragEnd`);
- saving the dialog (`handleSaveInitiative`, both create and update);
- deleting an initiative (`handleDeleteInitiative`);
- the row building of CSV export and the row consuming of CSV import.

## How the model is laid out

- `wrappers.dfy` (`Wrappers`): the `Option` type.
- `stages.dfy` (`Stages`): the stage list and the `Columns` value.
  - A JavaScript object is modelled as `Columns(order, lists)`. `order` is
    the order in which its keys enumerate. `lists` holds the property
    values.
  - `Columns.Set` is property assignment. A present key keeps its place; a
    new key goes last.
  - `Ids` counts every placement on the board, with multiplicity.
  - `Batch`, `Bucket` and `Bucketed` model "a fresh object with one empty
    column per stage, then append batches of ids to their target stage".
    Migration and import both work this way.
- `board.dfy` (`Boards`): `Initiative`, `Board` and the board invariants.
- `migration.dfy` (`Migration`, `MigrationProperties`): loading a saved
  board.
- `moves.dfy` (`Moves`): the drag-and-drop move.
- `text.dfy` (`JsStrings`): `trim`, `split(',')`, `join(',')`, `filter` and
  `filter(Boolean)`.
- `editing.dfy` (`Editing`, `EditingProperties`): create, update and
  delete.
- `csv.dfy` (`Csv`, `CsvProperties`): the export rows, the import rows and
  the round trip.

Each loop of the source becomes a Dafny method with a loop, proved equal
to a function that specifies it. This covers:

- the `STAGES.forEach` initialisations;
- the `migrateBoard` and `getInitialBoard` loops;
- the delete loop, the export loop and the import loop.

The properties are lemmas about those functions. The move, create and
update have no loop in the source, so they are functions.

The board invariant (`Boards.Invariant`) says four things:
- the column keys are exactly the stages;
- every placed id has a record;
- no id is placed twice;
- every record is stored under its own id.

Each operation is proved to keep it, except import. Import keeps it only
when no two rows share an id.

Where the code and its written design differ, the model follows the code:

- CSV round trip: the design promises that each column keeps its order.
  The code rebuilds every column in the order the records enumerate.
  `CsvProperties.RoundTrip` states that order exactly: each column keeps
  the same ids, listed in record order.
- `status` is any string. Import stores whatever status the file holds,
  and `not_started` only when the cell is empty.
- Saving with a blank title does nothing. It is not reported as an error.
- Import throws for a row whose stage is a name a plain object inherits
  (`constructor`, `toString`, `__proto__`, …) and that has an id. For
  such a name `columns[row.stage]` is an inherited value that is truthy
  but has no `push` method, so the call throws a `TypeError`. The board is
  then left as it was (`Csv.Import` returns `None`).
- Two rows with the same id and different stages place that id in two
  columns. `CsvProperties.ImportDuplicateRows` proves this, and
  `CsvProperties.ImportDuplicateExample` gives a two-row file that does it.
- The fifth stage is named `Change Ticket`, with a space.

## Model

| member | source | states |
|---|---|---|
| Stages.StagesDistinct | src/App.js:9-16 | the six stages are pairwise distinct, so there are six of them, and the catch-all stage `DEV` is one of them |
| Stages.Columns.Set | src/App.js:61-63 | assignment keeps the object well formed, replaces exactly that key's list, keeps an existing key's place and appends a new key |
| Stages.InitStageColumns | src/App.js:59-63 | the `STAGES.forEach` loop builds the stage-keyed object with every stage empty, in stage order |
| Stages.BucketedIds | src/App.js:66-75 | appending batches to stage columns loses and duplicates no id that is aimed at a stage |
| Stages.BucketHas | src/App.js:66-75 | an id is in a stage column exactly when some batch aimed at that stage carries it |
| Stages.SetIds | src/App.js:70 | replacing one column's list trades that list's ids for the new list's ids, and changes no other placement |
| Boards.EmptyBoard | src/App.js:106-111 | the default board has every stage, in order, with no ids and no records |
| Boards.EmptyBoardInvariant | src/App.js:106-111 | the default board meets the board invariant |
| Boards.OneColumnEach | src/App.js:217 | on a board where no id is placed twice, an id is in at most one column and at most once in it |
| Migration.TargetStage | src/App.js:51-74 | the target is always a stage: a current stage maps to itself, `Idea`/`Planning`/`Development` go to `DEV`, `Production` goes to `PROD`, and any other unknown name goes to `DEV` |
| Migration.MigrateBoard | src/App.js:49-82 | the loop computes the migrated columns over the saved keys in enumeration order and keeps the records unchanged |
| MigrationProperties.RoutedMigration | src/App.js:66-75 | the migration batches carry, in order, exactly the concatenated ids of the old columns |
| MigrationProperties.MigrationKeepsIds | src/App.js:66-75 | migration keeps the multiset of placed ids |
| MigrationProperties.MigrationConcatenates | src/App.js:67-70 | a migrated stage is the concatenation, in old key order, of the old lists mapped to it |
| MigrationProperties.MigratedColumnsAre | src/App.js:59-75 | the migrated keys are exactly the stages, in stage order, each filled from the old columns mapped to it |
| MigrationProperties.MigrationPlacement | src/App.js:67-74 | an id is in a migrated stage exactly when some old column mapped to that stage held it |
| Migration.MissingStagesFacts | src/App.js:97-101 | the stages added are exactly the absent ones, each once |
| Migration.AddMissing | src/App.js:97-101 | the loop appends an empty column for each absent stage, in stage order, and keeps every present column and its place |
| Migration.AddMissingStages | src/App.js:95-103 | the completion loop computes `Completed` of the saved columns |
| Migration.GetInitialBoard | src/App.js:84-112 | loading computes `InitialBoard`: the default board, the migrated board, or the completed board |
| MigrationProperties.CompletedByValid | src/App.js:96-103 | completion gives a well-formed object, and the original keys lead its order |
| MigrationProperties.CompletedByValues | src/App.js:96-101 | completion keeps every present list and adds only empty lists for stages |
| MigrationProperties.CompletedByIds | src/App.js:96-103 | completion moves no id |
| MigrationProperties.CompletedExact | src/App.js:88-103 | when no saved key is an old name, the completed keys are exactly the stages |
| MigrationProperties.CompletedByNoop | src/App.js:97-101 | completing an object that already has every stage changes nothing |
| MigrationProperties.InitialBoardStages | src/App.js:84-112 | after loading, the column keys are exactly the stages, whichever path was taken |
| MigrationProperties.InitialBoardKeeps | src/App.js:95-103 | without migration the records, every saved column and its place are kept, and the added columns are empty stages |
| MigrationProperties.InitialBoardIds | src/App.js:84-104 | loading keeps the records and the multiset of placed ids, with or without migration |
| MigrationProperties.InitialBoardMigrates | src/App.js:88-92 | an id in an old column lands in that column's target stage, and the old key is gone |
| MigrationProperties.InitialBoardIdempotent | src/App.js:84-112 | loading an already loaded board gives it back unchanged |
| MigrationProperties.InitialBoardInvariant | src/App.js:84-112 | a saved board whose placements and records were consistent meets the board invariant once loaded |
| Moves.RemoveAt | src/App.js:132 | `splice(i, 1)` drops exactly the element at `i`, shifting the later ones down, and the removed element plus the rest is the old multiset |
| Moves.Clamp | src/App.js:134 | an insertion index past the end means the end |
| Moves.InsertAt | src/App.js:134 | `splice(i, 0, x)` puts `x` at the clamped index, and removing it from there gives the list back; the multiset gains exactly `x` |
| Moves.DragEnd | src/App.js:124-136 | no destination, or the same place, changes nothing; otherwise the records, the keys and their order are kept |
| Moves.MovePlacesCard | src/App.js:128-135 | the moved id sits at the clamped destination index; the destination minus that id is what it was once the card had left; the source loses only that card; every other column is unchanged |
| Moves.MovePreservesIds | src/App.js:130-134 | a move keeps the multiset of placed ids |
| Moves.MovePreservesInvariant | src/App.js:124-136 | a move keeps the board invariant |
| JsStrings.TrimStart | src/App.js:175 | the result is a suffix with no leading whitespace, and everything dropped was whitespace |
| JsStrings.TrimEnd | src/App.js:175 | the result is a prefix with no trailing whitespace, and everything dropped was whitespace |
| JsStrings.Trim | src/App.js:175 | a trimmed non-empty string starts and ends with a non-whitespace character |
| JsStrings.TrimSlice | src/App.js:175 | `trim` keeps the slice of the string between a leading and a trailing run of whitespace |
| JsStrings.TrimEmptyIff | src/App.js:175 | `trim` gives "" exactly when every character is JavaScript whitespace |
| JsStrings.Join | src/App.js:224 | the empty list joins to "" and one item joins to itself |
| JsStrings.Split | src/App.js:254 | `split(',')` always gives at least one piece, and no piece holds a comma |
| JsStrings.DropEmpty | src/App.js:254 | `filter(Boolean)` gives only non-empty strings, and every non-empty string of the input is among them |
| JsStrings.DropEmptyIsWithout | src/App.js:254 | `filter(Boolean)` on strings is the filter that removes "" |
| JsStrings.DropEmptyCounts | src/App.js:254 | every non-empty string is kept as often as it occurs, so repeats survive |
| JsStrings.DropEmptyConcat | src/App.js:254 | dropping empty strings distributes over concatenation, so the kept strings stay in their order |
| JsStrings.SplitNoComma | src/App.js:254 | a comma-free string splits into itself alone |
| JsStrings.SplitConcat | src/App.js:254 | splitting at one comma splits each side separately and concatenates the pieces |
| JsStrings.SplitAfterPiece | src/App.js:254 | a comma after a comma-free head splits that head off as the first piece |
| JsStrings.SplitJoin | src/App.js:224 | splitting undoes joining a non-empty list of comma-free items |
| JsStrings.JoinSplit | src/App.js:254 | joining undoes splitting |
| JsStrings.DropEmptyNone | src/App.js:254 | dropping empty strings from a list with none changes nothing |
| Editing.Create | src/App.js:184-196 | the new id becomes the head of the chosen column and that column's old ids follow it; other columns, the key order and the other records are kept; the new record is `{ id, ...form }` |
| Editing.Update | src/App.js:176-183 | only the record under `editId` changes: it takes the form's fields and keeps its id; the columns are unchanged |
| Editing.SaveInitiative | src/App.js:174-199 | an all-whitespace title leaves the board as it was; otherwise the columns stay well formed |
| JsStrings.Without | src/App.js:205 | filtering removes every copy of the id and nothing else |
| Editing.DeleteInitiative | src/App.js:201-210 | the loop rebuilds every column without the id, in key order, and drops the record |
| Editing.FilteredSnoc | src/App.js:204-206 | rebuilding one more key assigns that key its filtered list on the columns built so far |
| JsStrings.WithoutConcat | src/App.js:205 | filtering distributes over concatenation, so the kept ids stay in order |
| EditingProperties.FlattenWithout | src/App.js:203-206 | filtering every column filters the concatenation of all columns |
| EditingProperties.DeleteIds | src/App.js:201-210 | deleting removes every placement of the id and keeps every other placement |
| EditingProperties.DeleteRemoves | src/App.js:201-210 | afterwards the id has no record and no column holds it; the keys, their order and every other record are kept, including dependencies that name the id |
| EditingProperties.DeleteIdempotent | src/App.js:201-210 | deleting twice is deleting once |
| EditingProperties.DeletePreservesInvariant | src/App.js:201-210 | deleting keeps the board invariant |
| EditingProperties.CreateIds | src/App.js:192-195 | creating adds exactly one placement of the new id |
| EditingProperties.CreatePreservesInvariant | src/App.js:184-196 | creating under an id with no record keeps the board invariant |
| EditingProperties.DeleteUndoesCreate | src/App.js:184-210 | deleting an initiative just created under a fresh id gives the board back |
| EditingProperties.FilterRestores | src/App.js:205 | filtering an id out of columns that held it only at the head of one of them gives the columns back |
| EditingProperties.UpdatePreservesInvariant | src/App.js:176-183 | updating keeps the board invariant |
| EditingProperties.UpdateLastWins | src/App.js:176-183 | of two updates of one record, the later one wins |
| EditingProperties.SavePreservesInvariant | src/App.js:174-199 | saving keeps the board invariant when a new record gets an id that has no record yet |
| Csv.FirstHolder | src/App.js:217 | `find` stops at the first key whose list holds the id, and no earlier key's list holds it |
| Csv.FindStage | src/App.js:217 | the stage found is "" or a key whose column holds the id, and it is a key whenever some column holds the id |
| Csv.ExportRows | src/App.js:214-226 | one row per record, in record order; row `i` is built from the `i`-th record and its found stage |
| Csv.ExportCsv | src/App.js:212-226 | the export loop computes `ExportRows` |
| Csv.ParseDependencies | src/App.js:254 | the parsed dependency ids are exactly the non-empty pieces between commas |
| Csv.StagesNotInherited | src/App.js:256 | no stage is a name a plain object inherits |
| Csv.ImportSnoc | src/App.js:247-258 | one more row extends the records and batches by that row alone, and a row without an id adds nothing |
| Csv.ImportStep | src/App.js:247-258 | one more row with an id and a stage name pushes onto that stage's column; a row without an id, or with an unknown stage, leaves the columns as they were; a row naming a stage never throws |
| Csv.ImportRow | src/App.js:247-258 | the callback skips a row without an id, stores the row's record, pushes the id onto its stage's column when the stage is a column, and throws exactly for an inherited name |
| Csv.ImportCsv | src/App.js:243-261 | the `complete` callback computes `Import`: the new board, or no new board when some row throws |
| CsvProperties.ExportStage | src/App.js:217 | on a board where no id is placed twice, export names the one column that holds the id, or "" for an unplaced id |
| CsvProperties.ParseNoComma | src/App.js:254 | an empty cell parses to no ids and a comma-free cell to that one id |
| CsvProperties.ParseCounts | src/App.js:254 | every non-empty piece between commas is kept as often as it occurs |
| CsvProperties.ParseConcat | src/App.js:254 | parsing at a comma is parsing each side and concatenating, so the ids keep the cell's order and repeats |
| CsvProperties.ParseKeepsRepeats | src/App.js:254 | the cell `a,,a` parses to `a` twice |
| CsvProperties.ParseKeepsOrder | src/App.js:254 | the cell `b,a` parses to `b` then `a` |
| CsvProperties.ParseJoin | src/App.js:254 | parsing a joined list of non-empty, comma-free ids gives the list back |
| CsvProperties.ParseSettles | src/App.js:254 | exporting and re-importing an already parsed dependency list changes nothing |
| CsvProperties.ImportBucket | src/App.js:256-258 | an imported stage column lists the ids of the rows that name it, in row order |
| CsvProperties.StageIdsHas | src/App.js:248-258 | an id is among a stage's row ids exactly when some row with that id names the stage |
| CsvProperties.ImportPlacement | src/App.js:256-258 | after import a stage column holds an id exactly when some row with that id names that stage |
| CsvProperties.ImportedKeys | src/App.js:248-255 | the imported records are keyed by exactly the non-empty row ids, and each record holds its own id |
| CsvProperties.ImportedLast | src/App.js:249-255 | the record under an id is built from its last row |
| CsvProperties.PlacedFromRows | src/App.js:256-258 | every placed id comes from a row with that id |
| CsvProperties.PlacedOnce | src/App.js:247-258 | rows with distinct ids place each id once at most |
| CsvProperties.ImportInvariant | src/App.js:243-260 | an import of rows with distinct ids meets the board invariant |
| CsvProperties.ImportDuplicateRows | src/App.js:247-258 | two rows with one id under two different stages place it in both columns, so an id is then placed twice |
| CsvProperties.ImportDuplicateExample | src/App.js:247-258 | two rows with id "7", under `DEV` and then `QA`, give a board with "7" in both columns |
| CsvProperties.ExportNoThrow | src/App.js:217-256 | exported rows of a stage-keyed board never make the import throw |
| CsvProperties.ExportImportKeys | src/App.js:214-255 | re-importing the export stores records under exactly the board's keys |
| CsvProperties.ExportedKeyImported | src/App.js:214-255 | each exported non-empty key is a key after import |
| CsvProperties.ImportedKeyExported | src/App.js:214-255 | each key after import was an exported key |
| CsvProperties.ExportImportRecord | src/App.js:218-255 | the record of an exported row is the record its re-import stores |
| CsvProperties.ExportImportValue | src/App.js:218-255 | the record re-imported under an exported key is the board's record |
| CsvProperties.ExportImportRecords | src/App.js:214-255 | re-importing the export restores every record, when keys, statuses and dependency ids survive the format |
| CsvProperties.StageIdsExport | src/App.js:214-258 | a stage's exported row ids are that column's ids, in record order |
| CsvProperties.SelectHas | src/App.js:215 | an id is selected exactly when it is a record key and the column holds it |
| CsvProperties.RoundTripColumn | src/App.js:212-260 | after a round trip each stage column lists, in record order, the ids it held |
| CsvProperties.SelectPlaced | src/App.js:215-217 | selecting a column's ids by a key list that includes every placed id keeps exactly that column's ids |
| CsvProperties.RoundTripPlacement | src/App.js:212-260 | after a round trip a stage column holds exactly the ids it held |
| CsvProperties.RoundTrip | src/App.js:212-260 | export then import does not throw, restores every record, and gives every stage column the same ids, in record order |

## Left out

- I/O is not modelled: `localStorage`, `JSON.parse`/`JSON.stringify`, the CSV text (PapaParse's `unparse` and `parse`), the file picker, the download link and `alert`. The model works on parsed values: the saved board as an `Option` (None: nothing saved, or unreadable) and CSV rows as records of six strings. A cell missing from the file reads as "".
- Migration.GetInitialBoard: writing the migrated board back to storage (`saveBoard`) is not modelled.
- Editing.SaveInitiative: `Date.now().toString()` becomes the parameter `newId`. Nothing proves that the clock gives an id with no record; the invariant lemmas require it.
- The dialog state (`dialogOpen`, `editId`, `form`), its reset in `handleCloseDialog`, and the rendering are not modelled. `dialogOpen` becomes the `stage` parameter and `editId` an `Option`.
- Editing.Update: requires `editId` to have a record. The edit dialog opens only from a card, and a card is rendered only for an id with a record (src/App.js:437-439 and 556), so a missing record is never merged.
- Editing.Create: requires the column to exist. The create dialog opens only from a rendered stage column (src/App.js:406).
- Moves.DragEnd: requires, for a real move, that both columns exist and that the source index is a position in its column. The drag library reports only such drops. Negative indices are not modelled, since `Location.index` is a `nat`.
- Moves.DragEnd: the move is modelled as a pure function of the old board. The source copies `columns` shallowly and splices the old lists in place, so the previous board value is mutated too; that aliasing is not modelled. `startCol` and `finishCol` are read but never used, and are not modelled; neither is `draggableId`, which the move never reads.
- Key enumeration order is the `order` of `Columns`, which follows insertion. JavaScript lists integer-like keys first, in numeric order; that rule is not modelled. `Object.entries(board.initiatives)` order is the `order` parameter of the export.
- Saved data of an older shape is not modelled: records without `status` or `dependencies` (the `|| []` default at src/App.js:224), a saved board without `columns` (which the model represents as an empty object), and column values that are not id lists.
- Ids equal to `__proto__` as initiative keys are not modelled; such a key does not become an own property.
- Stage names only shape behaviour through the fixed mapping and the stage list. Rendering colours and status labels are presentation only.
