/** The row records of CSV export and import; the text encoding of rows is not modelled. */
module Csv {
  import opened Wrappers
  import opened Stages
  import opened Boards
  import opened JsStrings

  /** One CSV row as a record of its six columns; an absent cell reads as "". */
  datatype CsvRow = CsvRow(
    id: string,
    title: string,
    description: string,
    status: string,
    stage: string,
    dependencies: string)

  /** The status an imported row without one gets. */
  const NOT_STARTED: string := "not_started"

  /**
   * The names a plain object inherits from `Object.prototype`: for such a
   * name `columns[name]` is truthy although no column was set under it.
   */
  const PROTOTYPE_KEYS: set<string> := {
    "constructor", "__defineGetter__", "__defineSetter__", "hasOwnProperty",
    "__lookupGetter__", "__lookupSetter__", "isPrototypeOf", "propertyIsEnumerable",
    "toString", "valueOf", "__proto__", "toLocaleString"
  }

  /** The position, in `keys`, of the first list that holds `id`; `|keys|` when none does. */
  function FirstHolder(keys: seq<string>, lists: map<string, seq<string>>, id: string): (i: nat)
    ensures i <= |keys|
    ensures i < |keys| ==> id in ListOf(lists, keys[i])
    ensures forall j :: 0 <= j < i ==> id !in ListOf(lists, keys[j])
  {
    if keys == [] then 0
    else if id in ListOf(lists, keys[0]) then 0
    else 1 + FirstHolder(keys[1..], lists, id)
  }

  /** `Object.keys(columns).find(col => columns[col].includes(id)) || ''`. */
  function FindStage(c: Columns, id: string): (s: string)
    ensures s == [] || (s in c.order && id in ListOf(c.lists, s))
    ensures (exists k :: k in c.order && id in ListOf(c.lists, k)) ==> s in c.order
  {
    var i := FirstHolder(c.order, c.lists, id);
    if i < |c.order| then c.order[i] else
      assert forall k :: k in c.order ==> id !in ListOf(c.lists, k);
      []
  }

  /** The row exported for the record `rec` stored under `id`. */
  function ExportRow(c: Columns, id: string, rec: Initiative): CsvRow {
    CsvRow(id, rec.title, rec.description, rec.status, FindStage(c, id), Join(rec.dependencies))
  }

  /** The rows exported for the records under `order`, one per key, in that order. */
  function ExportRows(b: Board, order: seq<string>): (rows: seq<CsvRow>)
    requires forall k :: k in order ==> k in b.initiatives
    ensures |rows| == |order|
    ensures forall i :: 0 <= i < |order| ==> rows[i] == ExportRow(b.columns, order[i], b.initiatives[order[i]])
  {
    if order == [] then []
    else
      var n := |order| - 1;
      ExportRows(b, order[..n]) + [ExportRow(b.columns, order[n], b.initiatives[order[n]])]
  }

  /**
   * The row-building loop of `handleExportCSV`; `order` is the order in which
   * `Object.entries` enumerates the records.
   */
  method ExportCsv(b: Board, order: seq<string>) returns (rows: seq<CsvRow>)
    requires forall k :: k in order ==> k in b.initiatives
    ensures rows == ExportRows(b, order)
  {
    rows := [];
    for i := 0 to |order|
      invariant rows == ExportRows(b, order[..i])
    {
      var id := order[i];
      var initiative := b.initiatives[id];
      var stage := FindStage(b.columns, id);
      PrefixSnoc(order, i);
      rows := rows + [CsvRow(id, initiative.title, initiative.description, initiative.status,
                             stage, Join(initiative.dependencies))];
    }
    assert order[..|order|] == order;
  }

  /** `s ? s.split(',').filter(Boolean) : []`. */
  function ParseDependencies(s: string): (r: seq<string>)
    ensures forall i :: 0 <= i < |r| ==> r[i] != [] && ',' !in r[i]
    ensures forall x :: x in r <==> x != [] && x in Split(s)
  {
    if s == [] then [] else DropEmpty(Split(s))
  }

  /** The record an imported row is stored as. */
  function RowRecord(row: CsvRow): Initiative {
    Initiative(row.id, row.title, row.description,
               if row.status == [] then NOT_STARTED else row.status,
               ParseDependencies(row.dependencies))
  }

  /** The records built from `rows`; rows without an id are skipped and a later row overwrites an earlier one. */
  function ImportedInitiatives(rows: seq<CsvRow>): map<string, Initiative> {
    if rows == [] then map[]
    else
      var m := ImportedInitiatives(rows[..|rows| - 1]);
      var last := rows[|rows| - 1];
      if last.id == [] then m else m[last.id := RowRecord(last)]
  }

  /** Each row with an id asks for that id to be pushed onto the column named by its stage. */
  function ImportBatches(rows: seq<CsvRow>): seq<Batch> {
    if rows == [] then []
    else
      var bs := ImportBatches(rows[..|rows| - 1]);
      var last := rows[|rows| - 1];
      if last.id == [] then bs else bs + [Batch(last.stage, [last.id])]
  }

  /** `columns[s]` finds an inherited property of a plain object. */
  predicate IsInherited(s: string) {
    s in PROTOTYPE_KEYS
  }

  /** No stage is an inherited property name. */
  lemma StagesNotInherited()
    ensures forall s :: IsStage(s) ==> !IsInherited(s)
  {
  }

  /** A row with an id whose stage names an inherited property: the `push` on it throws. */
  predicate RowThrows(row: CsvRow) {
    row.id != [] && IsInherited(row.stage)
  }

  /** Some row throws, and the import stops with the board as it was. */
  predicate ImportThrows(rows: seq<CsvRow>) {
    exists i :: 0 <= i < |rows| && RowThrows(rows[i])
  }

  /** The board an import that does not throw sets. */
  function ImportedBoard(rows: seq<CsvRow>): Board {
    Board(Bucketed(ImportBatches(rows)), ImportedInitiatives(rows))
  }

  /** The outcome of importing `rows`: the new board, or `None` when the import throws. */
  function Import(rows: seq<CsvRow>): Option<Board> {
    if ImportThrows(rows) then None else Some(ImportedBoard(rows))
  }

  /** Appending one row to `rows` extends the import by that row's effect. */
  lemma ImportSnoc(rows: seq<CsvRow>, i: nat)
    requires i < |rows|
    ensures ImportBatches(rows[..i + 1])
         == if rows[i].id == [] then ImportBatches(rows[..i]) else ImportBatches(rows[..i]) + [Batch(rows[i].stage, [rows[i].id])]
    ensures ImportedInitiatives(rows[..i + 1])
         == if rows[i].id == [] then ImportedInitiatives(rows[..i]) else ImportedInitiatives(rows[..i])[rows[i].id := RowRecord(rows[i])]
  {
    assert rows[..i + 1][..i] == rows[..i];
  }

  /** One more row pushes its id onto its stage's column when it has an id and its stage is a column. */
  lemma ImportStep(rows: seq<CsvRow>, i: nat)
    requires i < |rows|
    ensures var c, row := Bucketed(ImportBatches(rows[..i])), rows[i];
      && (row.id == [] ==> Bucketed(ImportBatches(rows[..i + 1])) == c)
      && (row.id != [] && IsStage(row.stage) ==>
            Bucketed(ImportBatches(rows[..i + 1])) == c.Set(row.stage, c.lists[row.stage] + [row.id]))
      && (row.id != [] && !IsStage(row.stage) ==> Bucketed(ImportBatches(rows[..i + 1])) == c)
      && (IsStage(row.stage) ==> !RowThrows(row))
  {
    ImportSnoc(rows, i);
    BucketedSnoc(ImportBatches(rows[..i]), Batch(rows[i].stage, [rows[i].id]));
    StagesNotInherited();
  }

  /**
   * The `forEach` callback for one row: a row without an id is skipped;
   * otherwise its record is stored under its id and the id is pushed onto
   * its stage's column, unless the stage is no column at all. `thrown`
   * reports the `push` onto an inherited property.
   */
  method ImportRow(row: CsvRow, initiatives: map<string, Initiative>, columns: Columns)
    returns (thrown: bool, ni: map<string, Initiative>, nc: Columns)
    requires columns.Valid() && columns.lists.Keys == STAGE_SET
    ensures thrown <==> RowThrows(row)
    ensures ni == if row.id == [] then initiatives else initiatives[row.id := RowRecord(row)]
    ensures nc == if row.id != [] && IsStage(row.stage) then columns.Set(row.stage, columns.lists[row.stage] + [row.id]) else columns
  {
    thrown, ni, nc := false, initiatives, columns;
    StagesNotInherited();
    if row.id != [] {
      ni := initiatives[row.id := RowRecord(row)];
      if row.stage in columns.lists {
        nc := columns.Set(row.stage, columns.lists[row.stage] + [row.id]);
      } else if IsInherited(row.stage) {
        thrown := true;
      }
    }
  }

  /** The `complete` callback of `handleImportCSV`: every row in order, or `None` once one throws. */
  method ImportCsv(rows: seq<CsvRow>) returns (r: Option<Board>)
    ensures r == Import(rows)
  {
    var initiatives: map<string, Initiative> := map[];
    var columns := InitStageColumns();
    for i := 0 to |rows|
      invariant initiatives == ImportedInitiatives(rows[..i])
      invariant columns == Bucketed(ImportBatches(rows[..i]))
      invariant forall j :: 0 <= j < i ==> !RowThrows(rows[j])
    {
      var thrown;
      ImportSnoc(rows, i);
      ImportStep(rows, i);
      thrown, initiatives, columns := ImportRow(rows[i], initiatives, columns);
      if thrown {
        return None;
      }
    }
    assert rows[..|rows|] == rows;
    r := Some(Board(columns, initiatives));
  }
}
/** What export and import guarantee, alone and composed. */
module CsvProperties {
  import opened Wrappers
  import opened Stages
  import opened Boards
  import opened JsStrings
  import opened Csv

  /** On a board where an id sits in at most one column, export names that column, or "" for an unplaced id. */
  lemma ExportStage(c: Columns, id: string)
    requires c.Valid() && AtMostOnce(c)
    ensures forall s :: s in c.lists && id in c.lists[s] ==> FindStage(c, id) == s
    ensures id !in Ids(c) ==> FindStage(c, id) == []
  {
    var i := FirstHolder(c.order, c.lists, id);
    if i < |c.order| {
      FlattenHolds(c.order, c.lists, i);
      forall s | s in c.lists && id in c.lists[s] ensures FindStage(c, id) == s {
        OneColumnEach(c, id, c.order[i], s);
      }
    }
  }

  /** A non-empty join of non-empty items is non-empty. */
  lemma JoinNonEmpty(items: seq<string>)
    requires |items| >= 1 && items[0] != []
    ensures Join(items) != []
  {
  }

  /** Importing the joined dependency list gives it back when its ids are non-empty and comma-free. */
  lemma ParseJoin(deps: seq<string>)
    requires forall i :: 0 <= i < |deps| ==> deps[i] != [] && ',' !in deps[i]
    ensures ParseDependencies(Join(deps)) == deps
  {
    if deps != [] {
      JoinNonEmpty(deps);
      SplitJoin(deps);
      DropEmptyNone(deps);
    }
  }

  /** A cell without a comma holds one id, or none when it is empty. */
  lemma ParseNoComma(s: string)
    requires ',' !in s
    ensures ParseDependencies(s) == if s == [] then [] else [s]
  {
    if s != [] {
      SplitNoComma(s);
      DropEmptyNone([s]);
    }
  }

  /** Parsing keeps every non-empty piece between commas as often as it occurs. */
  lemma ParseCounts(s: string)
    ensures multiset(ParseDependencies(s)) == multiset(Split(s))[[] := 0]
  {
    DropEmptyCounts(Split(s));
    assert Split([]) == [[]];
  }

  /**
   * Parsing splits at every comma and keeps the order and the repeats of the
   * non-empty pieces: with `ParseDependencies` of "" and of a comma-free
   * string, this fixes the result for every cell.
   */
  lemma ParseConcat(a: string, c: string)
    ensures ParseDependencies(a + [','] + c) == ParseDependencies(a) + ParseDependencies(c)
  {
    SplitConcat(a, c);
    DropEmptyConcat(Split(a), Split(c));
    assert Split([]) == [[]];
  }

  /** A cell naming one id twice, with an empty piece between, parses to both copies. */
  lemma ParseKeepsRepeats()
    ensures ParseDependencies("a,,a") == ["a", "a"]
  {
    ParseConcat("a", ",a");
    ParseConcat("", "a");
    ParseNoComma("a");
    assert "a" + [','] + ",a" == "a,,a";
    assert "" + [','] + "a" == ",a";
  }

  /** A cell lists its ids in the order it names them. */
  lemma ParseKeepsOrder()
    ensures ParseDependencies("b,a") == ["b", "a"]
  {
    ParseConcat("b", "a");
    ParseNoComma("b");
    ParseNoComma("a");
    assert "b" + [','] + "a" == "b,a";
  }

  /** Parsing is settled after one pass: exporting and re-importing a parsed list changes nothing. */
  lemma ParseSettles(s: string)
    ensures ParseDependencies(Join(ParseDependencies(s))) == ParseDependencies(s)
  {
    ParseJoin(ParseDependencies(s));
  }

  /** The ids of the rows with an id whose stage is `s`, in row order. */
  function StageIds(rows: seq<CsvRow>, s: string): seq<string> {
    if rows == [] then []
    else
      var last := rows[|rows| - 1];
      if last.id != [] && last.stage == s then StageIds(rows[..|rows| - 1], s) + [last.id]
      else StageIds(rows[..|rows| - 1], s)
  }

  /** The ids of the rows with an id whose stage is a stage, in row order. */
  function PlacedIds(rows: seq<CsvRow>): seq<string> {
    if rows == [] then []
    else
      var last := rows[|rows| - 1];
      if last.id != [] && IsStage(last.stage) then PlacedIds(rows[..|rows| - 1]) + [last.id]
      else PlacedIds(rows[..|rows| - 1])
  }

  /** Each imported stage column holds, in row order, the ids of the rows naming that stage. */
  lemma {:induction false} ImportBucket(rows: seq<CsvRow>, s: string)
    ensures Bucket(ImportBatches(rows), s) == StageIds(rows, s)
    ensures Routed(ImportBatches(rows)) == PlacedIds(rows)
  {
    if rows != [] {
      var n := |rows| - 1;
      ImportBucket(rows[..n], s);
      var bs := ImportBatches(rows[..n]);
      if rows[n].id != [] {
        var x := Batch(rows[n].stage, [rows[n].id]);
        assert (bs + [x])[..|bs|] == bs;
      }
    }
  }

  /** An id is in `StageIds(rows, s)` exactly when some row carries it with stage `s`. */
  lemma {:induction false} StageIdsHas(rows: seq<CsvRow>, s: string, y: string)
    ensures y in StageIds(rows, s) <==> exists i :: 0 <= i < |rows| && rows[i].id == y && y != [] && rows[i].stage == s
  {
    if rows != [] {
      var n := |rows| - 1;
      StageIdsHas(rows[..n], s, y);
      if exists i :: 0 <= i < |rows| && rows[i].id == y && y != [] && rows[i].stage == s {
        var i :| 0 <= i < |rows| && rows[i].id == y && y != [] && rows[i].stage == s;
        if i < n {
          assert rows[..n][i] == rows[i];
        }
      }
      if y in StageIds(rows[..n], s) {
        var i :| 0 <= i < n && rows[..n][i].id == y && y != [] && rows[..n][i].stage == s;
        assert rows[i] == rows[..n][i];
      }
    }
  }

  /**
   * After an import, a stage column holds y exactly when some row carries
   * id y and names that stage; the column lists those ids in row order.
   */
  lemma ImportPlacement(rows: seq<CsvRow>, s: string, y: string)
    requires IsStage(s)
    ensures ImportedBoard(rows).columns.lists[s] == StageIds(rows, s)
    ensures y in ImportedBoard(rows).columns.lists[s]
        <==> exists i :: 0 <= i < |rows| && rows[i].id == y && y != [] && rows[i].stage == s
  {
    ImportBucket(rows, s);
    StageIdsHas(rows, s, y);
  }

  /** The imported records are keyed by the ids of the rows that have one. */
  lemma {:induction false} ImportedKeys(rows: seq<CsvRow>)
    ensures forall k :: k in ImportedInitiatives(rows) <==> exists i :: 0 <= i < |rows| && rows[i].id == k && k != []
    ensures forall k :: k in ImportedInitiatives(rows) ==> ImportedInitiatives(rows)[k].id == k
  {
    if rows != [] {
      var n := |rows| - 1;
      var m, last := ImportedInitiatives(rows[..n]), rows[n];
      assert ImportedInitiatives(rows) == if last.id == [] then m else m[last.id := RowRecord(last)];
      ImportedKeys(rows[..n]);
      forall k | exists i :: 0 <= i < |rows| && rows[i].id == k && k != []
        ensures k in ImportedInitiatives(rows)
      {
        var i :| 0 <= i < |rows| && rows[i].id == k && k != [];
        if i < n {
          assert rows[..n][i] == rows[i];
        }
      }
      forall k | k in ImportedInitiatives(rows[..n])
        ensures exists i :: 0 <= i < |rows| && rows[i].id == k && k != []
      {
        var i :| 0 <= i < n && rows[..n][i].id == k && k != [];
        assert rows[i] == rows[..n][i];
      }
    }
  }

  /** The record under a row's id is that row's, unless a later row carries the same id. */
  lemma {:induction false} ImportedLast(rows: seq<CsvRow>, i: nat)
    requires i < |rows| && rows[i].id != []
    requires forall j :: i < j < |rows| ==> rows[j].id != rows[i].id
    ensures rows[i].id in ImportedInitiatives(rows)
    ensures ImportedInitiatives(rows)[rows[i].id] == RowRecord(rows[i])
  {
    var n := |rows| - 1;
    var m, last := ImportedInitiatives(rows[..n]), rows[n];
    assert ImportedInitiatives(rows) == if last.id == [] then m else m[last.id := RowRecord(last)];
    if i < n {
      var pre := rows[..n];
      assert pre[i] == rows[i];
      assert forall j :: i < j < n ==> pre[j] == rows[j];
      ImportedLast(pre, i);
      assert last.id != rows[i].id;
    }
  }

  /** Every id an import places comes from a row with that id. */
  lemma {:induction false} PlacedFromRows(rows: seq<CsvRow>)
    ensures forall y :: y in PlacedIds(rows) ==> exists i :: 0 <= i < |rows| && rows[i].id == y && y != []
  {
    if rows != [] {
      var n := |rows| - 1;
      PlacedFromRows(rows[..n]);
      forall y | y in PlacedIds(rows[..n]) ensures exists i :: 0 <= i < |rows| && rows[i].id == y && y != [] {
        var i :| 0 <= i < n && rows[..n][i].id == y && y != [];
        assert rows[i] == rows[..n][i];
      }
    }
  }

  /** No two rows carry the same id. */
  predicate DistinctRowIds(rows: seq<CsvRow>) {
    forall i, j :: 0 <= i < j < |rows| && rows[i].id != [] ==> rows[i].id != rows[j].id
  }

  /** Rows with distinct ids place each id at most once. */
  lemma {:induction false} PlacedOnce(rows: seq<CsvRow>)
    requires DistinctRowIds(rows)
    ensures forall y :: multiset(PlacedIds(rows))[y] <= 1
  {
    if rows != [] {
      var n := |rows| - 1;
      var init := rows[..n];
      assert DistinctRowIds(init) by {
        forall i, j | 0 <= i < j < |init| && init[i].id != [] ensures init[i].id != init[j].id {
          assert init[i] == rows[i] && init[j] == rows[j];
        }
      }
      PlacedOnce(init);
      PlacedFromRows(init);
      var last := rows[n];
      if last.id != [] && IsStage(last.stage) && last.id in PlacedIds(init) {
        assert false;
      }
    }
  }

  /** An import keeps the board invariants when no two rows carry the same id. */
  lemma ImportInvariant(rows: seq<CsvRow>)
    requires DistinctRowIds(rows)
    ensures Invariant(ImportedBoard(rows))
  {
    var b := ImportedBoard(rows);
    BucketedIds(ImportBatches(rows));
    ImportBucket(rows, []);
    assert Ids(b.columns) == multiset(PlacedIds(rows));
    PlacedOnce(rows);
    PlacedFromRows(rows);
    ImportedKeys(rows);
    forall x | x in Ids(b.columns) ensures x in b.initiatives {
      assert x in PlacedIds(rows);
    }
  }

  /**
   * Two rows that carry one id under two different stages place it in both
   * columns, against the one-column invariant.
   */
  lemma ImportDuplicateRows(rows: seq<CsvRow>, i: nat, j: nat)
    requires i < j < |rows| && rows[i].id == rows[j].id != []
    requires IsStage(rows[i].stage) && IsStage(rows[j].stage) && rows[i].stage != rows[j].stage
    ensures rows[j].id in ImportedBoard(rows).columns.lists[rows[i].stage]
    ensures rows[j].id in ImportedBoard(rows).columns.lists[rows[j].stage]
    ensures !AtMostOnce(ImportedBoard(rows).columns)
  {
    var c := ImportedBoard(rows).columns;
    ImportPlacement(rows, rows[i].stage, rows[i].id);
    ImportPlacement(rows, rows[j].stage, rows[j].id);
    if AtMostOnce(c) {
      OneColumnEach(c, rows[i].id, rows[i].stage, rows[j].stage);
    }
  }

  /** Two rows with id "7", under DEV and then QA: the board that import sets has it in both columns. */
  lemma ImportDuplicateExample()
    ensures !AtMostOnce(ImportedBoard([CsvRow("7", "a", "", "", "DEV", ""), CsvRow("7", "b", "", "", "QA", "")]).columns)
  {
    var rows := [CsvRow("7", "a", "", "", "DEV", ""), CsvRow("7", "b", "", "", "QA", "")];
    assert IsStage(rows[0].stage) && IsStage(rows[1].stage);
    ImportDuplicateRows(rows, 0, 1);
  }

  /** The keys of `keys`, in their order, that `l` holds. */
  function Select(keys: seq<string>, l: seq<string>): seq<string> {
    if keys == [] then []
    else
      var init, last := keys[..|keys| - 1], keys[|keys| - 1];
      if last in l then Select(init, l) + [last] else Select(init, l)
  }

  /** An exported row names a column key or nothing, so on a board of stage columns no row throws on import. */
  lemma ExportNoThrow(b: Board, order: seq<string>)
    requires StagesExact(b.columns)
    requires forall k :: k in order ==> k in b.initiatives
    ensures !ImportThrows(ExportRows(b, order))
  {
    var rows := ExportRows(b, order);
    StagesNotInherited();
    forall i | 0 <= i < |rows| ensures !RowThrows(rows[i]) {
      var s := FindStage(b.columns, order[i]);
      if s != [] {
        assert s in b.columns.lists;
      }
    }
  }

  /**
   * A record under key `k` that the CSV format carries unchanged: the key is
   * non-empty, the status is set, and each dependency id is non-empty and
   * comma-free.
   */
  predicate SurvivesCsv(k: string, r: Initiative) {
    && k != [] && r.status != []
    && forall j :: 0 <= j < |r.dependencies| ==> r.dependencies[j] != [] && ',' !in r.dependencies[j]
  }

  /** Re-importing the rows exported under a key order that lists every record, once, stores records under exactly those keys. */
  lemma ExportImportKeys(b: Board, order: seq<string>)
    requires forall k :: k in order <==> k in b.initiatives
    requires forall k :: k in b.initiatives ==> k != []
    ensures ImportedInitiatives(ExportRows(b, order)).Keys == b.initiatives.Keys
  {
    forall k | k in b.initiatives ensures k in ImportedInitiatives(ExportRows(b, order)) {
      ExportedKeyImported(b, order, k);
    }
    forall k | k in ImportedInitiatives(ExportRows(b, order)) ensures k in b.initiatives {
      ImportedKeyExported(b, order, k);
    }
  }

  /** A non-empty key of `order` is a key of the re-imported records. */
  lemma ExportedKeyImported(b: Board, order: seq<string>, k: string)
    requires forall k :: k in order ==> k in b.initiatives
    requires k in order && k != []
    ensures k in ImportedInitiatives(ExportRows(b, order))
  {
    var rows := ExportRows(b, order);
    var i :| 0 <= i < |order| && order[i] == k;
    ImportedKeys(rows);
    assert rows[i].id == k;
  }

  /** Every key of the re-imported records is a key of `order`. */
  lemma ImportedKeyExported(b: Board, order: seq<string>, k: string)
    requires forall k :: k in order ==> k in b.initiatives
    requires k in ImportedInitiatives(ExportRows(b, order))
    ensures k in order
  {
    var rows := ExportRows(b, order);
    ImportedKeys(rows);
    var i :| 0 <= i < |rows| && rows[i].id == k && k != [];
    assert order[i] == k;
  }

  /** Re-importing the exported rows restores every record, when ids, statuses and dependency ids survive the format. */
  lemma ExportImportRecords(b: Board, order: seq<string>)
    requires KeyedById(b)
    requires Distinct(order) && forall k :: k in order <==> k in b.initiatives
    requires forall k :: k in b.initiatives ==> SurvivesCsv(k, b.initiatives[k])
    ensures ImportedInitiatives(ExportRows(b, order)) == b.initiatives
  {
    var m := ImportedInitiatives(ExportRows(b, order));
    ExportImportKeys(b, order);
    forall k | k in b.initiatives ensures m[k] == b.initiatives[k] {
      ExportImportValue(b, order, k);
    }
    SameMaps(m, b.initiatives);
  }

  /** Two maps with the same keys and the same value under each key are equal. */
  lemma SameMaps(m: map<string, Initiative>, n: map<string, Initiative>)
    requires m.Keys == n.Keys && forall k :: k in n ==> m[k] == n[k]
    ensures m == n
  {
  }

  /** The record re-imported under a key of `order` is the board's. */
  lemma ExportImportValue(b: Board, order: seq<string>, k: string)
    requires KeyedById(b) && Distinct(order) && k in order
    requires forall k :: k in order ==> k in b.initiatives
    requires SurvivesCsv(k, b.initiatives[k])
    ensures k in ImportedInitiatives(ExportRows(b, order))
    ensures ImportedInitiatives(ExportRows(b, order))[k] == b.initiatives[k]
  {
    var i :| 0 <= i < |order| && order[i] == k;
    ExportImportRecord(b, order, i);
  }

  /** The record exported in row `i` is the one its re-import stores. */
  lemma ExportImportRecord(b: Board, order: seq<string>, i: nat)
    requires KeyedById(b) && Distinct(order) && i < |order|
    requires forall k :: k in order ==> k in b.initiatives
    requires SurvivesCsv(order[i], b.initiatives[order[i]])
    ensures order[i] in ImportedInitiatives(ExportRows(b, order))
    ensures ImportedInitiatives(ExportRows(b, order))[order[i]] == b.initiatives[order[i]]
  {
    var rows := ExportRows(b, order);
    assert forall j :: i < j < |rows| ==> rows[j].id != rows[i].id;
    ImportedLast(rows, i);
    ParseJoin(b.initiatives[order[i]].dependencies);
  }

  /** The exported rows of a stage, in row order, are the keys of `order` held by that column. */
  lemma {:induction false} StageIdsExport(b: Board, order: seq<string>, s: string)
    requires forall k :: k in order ==> k in b.initiatives && k != []
    requires s in b.columns.lists
    requires forall k :: k in order ==> (FindStage(b.columns, k) == s <==> k in b.columns.lists[s])
    ensures StageIds(ExportRows(b, order), s) == Select(order, b.columns.lists[s])
  {
    if order != [] {
      var n := |order| - 1;
      var rows := ExportRows(b, order);
      var k := order[n];
      assert forall x :: x in order[..n] ==> x in order;
      assert rows[..|rows| - 1] == ExportRows(b, order[..n]);
      assert rows[|rows| - 1] == ExportRow(b.columns, k, b.initiatives[k]);
      StageIdsExport(b, order[..n], s);
      assert StageIds(rows, s) == if FindStage(b.columns, k) == s then StageIds(rows[..n], s) + [k] else StageIds(rows[..n], s);
    }
  }

  /** An id is selected exactly when it is a key and the list holds it. */
  lemma {:induction false} SelectHas(keys: seq<string>, l: seq<string>, y: string)
    ensures y in Select(keys, l) <==> y in keys && y in l
  {
    if keys != [] {
      var n := |keys| - 1;
      SelectHas(keys[..n], l, y);
      assert keys == keys[..n] + [keys[n]];
    }
  }

  /** After a round trip a stage column lists, in record order, the ids it held. */
  lemma RoundTripColumn(b: Board, order: seq<string>, s: string)
    requires Invariant(b) && IsStage(s)
    requires forall k :: k in order ==> k in b.initiatives && k != []
    ensures ImportedBoard(ExportRows(b, order)).columns.lists[s] == Select(order, b.columns.lists[s])
  {
    var c := b.columns;
    forall k | k in order ensures FindStage(c, k) == s <==> k in c.lists[s] {
      ExportStage(c, k);
      if FindStage(c, k) == s {
        assert s != [];
      }
    }
    StageIdsExport(b, order, s);
    ImportBucket(ExportRows(b, order), s);
  }

  /** Selecting from a column by a key list that includes every placed id keeps exactly that column's ids. */
  lemma SelectPlaced(c: Columns, order: seq<string>, s: string, y: string)
    requires c.Valid() && s in c.lists
    requires forall x :: x in Ids(c) ==> x in order
    ensures y in Select(order, c.lists[s]) <==> y in c.lists[s]
  {
    SelectHas(order, c.lists[s], y);
    if y in c.lists[s] {
      var i :| 0 <= i < |c.order| && c.order[i] == s;
      assert ListOf(c.lists, c.order[i]) == c.lists[s];
      FlattenHolds(c.order, c.lists, i);
    }
  }

  /** After a round trip a stage column holds exactly the ids it held. */
  lemma RoundTripPlacement(b: Board, order: seq<string>, s: string, y: string)
    requires Invariant(b) && IsStage(s)
    requires forall k :: k in order <==> k in b.initiatives
    requires forall k :: k in order ==> k != []
    ensures y in ImportedBoard(ExportRows(b, order)).columns.lists[s] <==> y in b.columns.lists[s]
  {
    RoundTripColumn(b, order, s);
    SelectPlaced(b.columns, order, s, y);
  }

  /**
   * Exporting a board and importing the rows gives back the same records
   * and the same stage of every initiative; each column then lists its ids
   * in record order rather than in its old order.
   */
  lemma RoundTrip(b: Board, order: seq<string>)
    requires Invariant(b)
    requires Distinct(order) && forall k :: k in order <==> k in b.initiatives
    requires forall k :: k in b.initiatives ==> SurvivesCsv(k, b.initiatives[k])
    ensures Import(ExportRows(b, order)) == Some(ImportedBoard(ExportRows(b, order)))
    ensures ImportedBoard(ExportRows(b, order)).initiatives == b.initiatives
    ensures forall s :: IsStage(s) ==>
      ImportedBoard(ExportRows(b, order)).columns.lists[s] == Select(order, b.columns.lists[s])
    ensures forall s, y :: IsStage(s) ==>
      (y in ImportedBoard(ExportRows(b, order)).columns.lists[s] <==> y in b.columns.lists[s])
  {
    ExportNoThrow(b, order);
    ExportImportRecords(b, order);
    forall s | IsStage(s)
      ensures ImportedBoard(ExportRows(b, order)).columns.lists[s] == Select(order, b.columns.lists[s])
    {
      RoundTripColumn(b, order, s);
    }
    forall s, y | IsStage(s)
      ensures y in ImportedBoard(ExportRows(b, order)).columns.lists[s] <==> y in b.columns.lists[s]
    {
      RoundTripPlacement(b, order, s, y);
    }
  }
}
