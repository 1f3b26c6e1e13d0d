/**
 * Loading a saved board: the remapping of old column names onto the
 * current stages (`migrateBoard`) and the completion of a board that
 * already uses them (`getInitialBoard`).
 */
module Migration {
  import opened Wrappers
  import opened Stages
  import opened Boards

  /** The fixed renaming of old column names. */
  const STAGE_MAPPING: map<string, string> :=
    map["Idea" := "DEV", "Planning" := "DEV", "Development" := "DEV", "QA" := "QA", "Production" := "PROD"]

  /** An old name's new name, or the old name itself when it has none. */
  function Renamed(oldStage: string): string {
    if oldStage in STAGE_MAPPING then STAGE_MAPPING[oldStage] else oldStage
  }

  /** The stage that receives the ids of the old column `oldStage`. */
  function TargetStage(oldStage: string): (t: string)
    ensures IsStage(t)
    ensures IsStage(oldStage) ==> t == oldStage
    ensures oldStage == "Idea" || oldStage == "Planning" || oldStage == "Development" ==> t == "DEV"
    ensures oldStage == "Production" ==> t == "PROD"
    ensures !IsStage(oldStage) && oldStage !in STAGE_MAPPING ==> t == DEFAULT_STAGE
  {
    var n := Renamed(oldStage);
    if IsStage(n) then n else DEFAULT_STAGE
  }

  /** One batch per old column, in key order, aimed at that column's target stage. */
  function MigrationBatches(keys: seq<string>, lists: map<string, seq<string>>): seq<Batch> {
    seq(|keys|, i requires 0 <= i < |keys| => Batch(TargetStage(keys[i]), ListOf(lists, keys[i])))
  }

  /** The columns `migrateBoard` builds from the saved ones. */
  function MigratedColumns(c: Columns): Columns {
    Bucketed(MigrationBatches(c.order, c.lists))
  }

  /** Some saved column key is not a current stage. */
  predicate NeedsMigration(c: Columns) {
    exists k :: k in c.order && !IsStage(k)
  }

  /** `migrateBoard`: a fresh object with all stages, each old column appended to its target. */
  method MigrateBoard(b: Board) returns (r: Board)
    ensures r == Board(MigratedColumns(b.columns), b.initiatives)
  {
    var newColumns := InitStageColumns();
    var keys, lists := b.columns.order, b.columns.lists;
    ghost var batches := MigrationBatches(keys, lists);
    assert batches[..0] == [];
    for i := 0 to |keys|
      invariant newColumns == Bucketed(batches[..i])
    {
      var oldStage := keys[i];
      var ids := ListOf(lists, oldStage);
      var newStage := Renamed(oldStage);
      BucketedStep(batches, i);
      if IsStage(newStage) {
        newColumns := newColumns.Set(newStage, newColumns.lists[newStage] + ids);
      } else {
        newColumns := newColumns.Set(DEFAULT_STAGE, newColumns.lists[DEFAULT_STAGE] + ids);
      }
    }
    assert batches[..|keys|] == batches;
    r := Board(newColumns, b.initiatives);
  }

  /** The stages of `ss` that are not keys of `lists`, in order. */
  function MissingStages(ss: seq<string>, lists: map<string, seq<string>>): seq<string> {
    if ss == [] then []
    else
      var init, last := ss[..|ss| - 1], ss[|ss| - 1];
      if last in lists then MissingStages(init, lists)
      else MissingStages(init, lists) + [last]
  }

  /** Exactly the absent ones of `ss` are listed, each once when `ss` repeats none. */
  lemma {:induction false} MissingStagesFacts(ss: seq<string>, lists: map<string, seq<string>>)
    ensures forall x :: x in MissingStages(ss, lists) <==> x in ss && x !in lists
    ensures Distinct(ss) ==> Distinct(MissingStages(ss, lists))
  {
    if ss != [] {
      var init, last := ss[..|ss| - 1], ss[|ss| - 1];
      MissingStagesFacts(init, lists);
      assert forall x :: x in ss <==> x in init || x == last;
      assert Distinct(ss) ==> Distinct(init) && last !in init;
    }
  }

  /** No key of `ss` is missing once every one of them is present. */
  lemma {:induction false} MissingStagesNone(ss: seq<string>, lists: map<string, seq<string>>)
    requires forall s :: s in ss ==> s in lists
    ensures MissingStages(ss, lists) == []
  {
    if ss != [] {
      var init := ss[..|ss| - 1];
      assert ss[|ss| - 1] in ss;
      forall s | s in init ensures s in lists {
        assert s in ss;
      }
      MissingStagesNone(init, lists);
    }
  }

  lemma MissingStagesSnoc(ss: seq<string>, i: nat, lists: map<string, seq<string>>)
    requires i < |ss|
    ensures MissingStages(ss[..i + 1], lists)
         == if ss[i] in lists then MissingStages(ss[..i], lists) else MissingStages(ss[..i], lists) + [ss[i]]
  {
    PrefixSnoc(ss, i);
  }

  /** The columns `c` with an empty column appended for every absent key of `ss`. */
  function CompletedBy(c: Columns, ss: seq<string>): Columns {
    Columns(c.order + MissingStages(ss, c.lists),
            map k | k in c.lists.Keys + (set s | s in ss) :: ListOf(c.lists, k))
  }

  /** The saved columns with an empty column appended for every absent stage. */
  function Completed(c: Columns): Columns {
    CompletedBy(c, STAGES)
  }

  /** A column object with the completed order, keys and lists is the completed object. */
  lemma CompletedByParts(c: Columns, ss: seq<string>, d: Columns)
    requires d.order == c.order + MissingStages(ss, c.lists)
    requires forall k :: k in d.lists <==> k in c.lists || k in ss
    requires forall k :: k in d.lists ==> d.lists[k] == ListOf(c.lists, k)
    ensures d == CompletedBy(c, ss)
  {
    assert d.lists.Keys == c.lists.Keys + (set s | s in ss);
  }

  /** The board the application starts from, given what was saved (None: nothing or unreadable). */
  function InitialBoard(saved: Option<Board>): Board {
    match saved
    case None => EmptyBoard()
    case Some(b) =>
      if NeedsMigration(b.columns) then Board(MigratedColumns(b.columns), b.initiatives)
      else Board(Completed(b.columns), b.initiatives)
  }

  /** Adds an empty column for each of `ss` that is absent, in the order of `ss`. */
  method AddMissing(c: Columns, ss: seq<string>) returns (columns: Columns)
    requires c.Valid() && Distinct(ss)
    ensures columns.order == c.order + MissingStages(ss, c.lists)
    ensures forall k :: k in columns.lists <==> k in c.lists || k in ss
    ensures forall k :: k in columns.lists ==> columns.lists[k] == ListOf(c.lists, k)
  {
    columns := c;
    for i := 0 to |ss|
      invariant columns.Valid()
      invariant columns.order == c.order + MissingStages(ss[..i], c.lists)
      invariant forall k :: k in columns.lists <==> k in c.lists || k in ss[..i]
      invariant forall k :: k in columns.lists ==> columns.lists[k] == ListOf(c.lists, k)
    {
      MissingStagesSnoc(ss, i, c.lists);
      DistinctNotEarlier(ss, i);
      if ss[i] !in columns.lists {
        assert ss[i] !in c.lists;
        assert c.order + MissingStages(ss[..i + 1], c.lists)
            == (c.order + MissingStages(ss[..i], c.lists)) + [ss[i]];
        columns := columns.Set(ss[i], []);
      } else {
        assert ss[i] in c.lists;
      }
    }
    assert ss[..|ss|] == ss;
  }

  /** The loop of `getInitialBoard` that adds an empty column for each absent stage. */
  method AddMissingStages(c: Columns) returns (columns: Columns)
    requires c.Valid()
    ensures columns == Completed(c)
  {
    StagesDistinct();
    columns := AddMissing(c, STAGES);
    CompletedByParts(c, STAGES, columns);
  }

  /** `getInitialBoard`, given the parsed saved board; writing the migrated board back is not modelled. */
  method GetInitialBoard(saved: Option<Board>) returns (b: Board)
    requires saved.Some? ==> saved.value.columns.Valid()
    ensures b == InitialBoard(saved)
  {
    if saved.None? {
      var columns := InitStageColumns();
      return Board(columns, map[]);
    }
    var s := saved.value;
    var hasOldStages := NeedsMigration(s.columns);
    if hasOldStages {
      b := MigrateBoard(s);
      return;
    }
    var columns := AddMissingStages(s.columns);
    b := Board(columns, s.initiatives);
  }
}

/** What loading a saved board guarantees. */
module MigrationProperties {
  import opened Wrappers
  import opened Stages
  import opened Boards
  import opened Migration

  /** Migration batches carry, in order, exactly the ids of the old columns. */
  lemma {:induction false} RoutedMigration(keys: seq<string>, lists: map<string, seq<string>>)
    ensures Routed(MigrationBatches(keys, lists)) == Flatten(keys, lists)
  {
    if keys != [] {
      var n := |keys| - 1;
      var bs := MigrationBatches(keys, lists);
      RoutedMigration(keys[..n], lists);
      assert bs[..n] == MigrationBatches(keys[..n], lists);
      assert IsStage(bs[n].target);
    }
  }

  /** Migration neither loses nor duplicates a placement. */
  lemma MigrationKeepsIds(c: Columns)
    ensures Ids(MigratedColumns(c)) == Ids(c)
  {
    BucketedIds(MigrationBatches(c.order, c.lists));
    RoutedMigration(c.order, c.lists);
  }

  /** The old keys, in order, whose ids go to stage `s`. */
  function KeysTargeting(keys: seq<string>, s: string): seq<string> {
    if keys == [] then []
    else
      var init, last := keys[..|keys| - 1], keys[|keys| - 1];
      if TargetStage(last) == s then KeysTargeting(init, s) + [last] else KeysTargeting(init, s)
  }

  /**
   * A migrated stage holds the old lists aimed at it, concatenated in the
   * order their keys enumerate, each in its own order.
   */
  lemma {:induction false} MigrationConcatenates(keys: seq<string>, lists: map<string, seq<string>>, s: string)
    ensures Bucket(MigrationBatches(keys, lists), s) == Flatten(KeysTargeting(keys, s), lists)
  {
    if keys != [] {
      var n := |keys| - 1;
      var bs := MigrationBatches(keys, lists);
      MigrationConcatenates(keys[..n], lists, s);
      assert bs[..n] == MigrationBatches(keys[..n], lists);
      if TargetStage(keys[n]) == s {
        var ks := KeysTargeting(keys[..n], s) + [keys[n]];
        assert ks[..|ks| - 1] == KeysTargeting(keys[..n], s);
      }
    }
  }

  /** The migrated columns are the stages, in order, each filled from the old columns mapped to it. */
  lemma MigratedColumnsAre(c: Columns)
    ensures StagesExact(MigratedColumns(c)) && MigratedColumns(c).order == STAGES
    ensures forall s :: IsStage(s) ==> MigratedColumns(c).lists[s] == Flatten(KeysTargeting(c.order, s), c.lists)
  {
    forall s | IsStage(s)
      ensures MigratedColumns(c).lists[s] == Flatten(KeysTargeting(c.order, s), c.lists)
    {
      MigrationConcatenates(c.order, c.lists, s);
    }
  }

  /** An id of an old column ends up in that column's target stage, and only ids of old columns do. */
  lemma MigrationPlacement(c: Columns, s: string, y: string)
    requires IsStage(s)
    ensures y in MigratedColumns(c).lists[s]
        <==> exists i :: 0 <= i < |c.order| && TargetStage(c.order[i]) == s && y in ListOf(c.lists, c.order[i])
  {
    var bs := MigrationBatches(c.order, c.lists);
    BucketHas(bs, s, y);
    if exists i :: 0 <= i < |c.order| && TargetStage(c.order[i]) == s && y in ListOf(c.lists, c.order[i]) {
      var i :| 0 <= i < |c.order| && TargetStage(c.order[i]) == s && y in ListOf(c.lists, c.order[i]);
      assert bs[i].target == s && y in bs[i].ids;
    }
  }

  /** Completion keeps every present column and its place and is well formed. */
  lemma CompletedByValid(c: Columns, ss: seq<string>)
    requires c.Valid() && Distinct(ss)
    ensures CompletedBy(c, ss).Valid()
    ensures CompletedBy(c, ss).order[..|c.order|] == c.order
  {
    var m := MissingStages(ss, c.lists);
    var d := CompletedBy(c, ss);
    MissingStagesFacts(ss, c.lists);
    DistinctConcat(c.order, m);
    assert d.order[..|c.order|] == c.order;
    forall k | k in d.order ensures k in d.lists {
      assert k in c.order || k in m;
    }
  }

  /** Completion keeps every present column's ids and adds only empty columns for keys of `ss`. */
  lemma CompletedByValues(c: Columns, ss: seq<string>)
    ensures forall s :: s in ss ==> s in CompletedBy(c, ss).lists
    ensures forall k :: k in c.lists ==> k in CompletedBy(c, ss).lists && CompletedBy(c, ss).lists[k] == c.lists[k]
    ensures forall k :: k in CompletedBy(c, ss).lists && k !in c.lists ==> k in ss && CompletedBy(c, ss).lists[k] == []
  {
  }

  /** Completion moves no id. */
  lemma CompletedByIds(c: Columns, ss: seq<string>)
    requires c.Valid()
    ensures Ids(CompletedBy(c, ss)) == Ids(c)
  {
    var m := MissingStages(ss, c.lists);
    var d := CompletedBy(c, ss);
    MissingStagesFacts(ss, c.lists);
    FlattenConcat(c.order, m, d.lists);
    FlattenAgree(c.order, d.lists, c.lists);
    FlattenEmpty(m, d.lists);
    assert Flatten(d.order, d.lists) == Flatten(c.order, c.lists);
  }

  /** When every present key is in `ss`, completion leaves exactly the keys of `ss`. */
  lemma CompletedByExact(c: Columns, ss: seq<string>)
    requires c.Valid()
    requires forall k :: k in c.order ==> k in ss
    ensures CompletedBy(c, ss).lists.Keys == set s | s in ss
  {
    assert c.lists.Keys <= set s | s in ss by {
      forall k | k in c.lists ensures k in ss {
        assert k in c.order;
      }
    }
  }

  /** Completing columns that need no migration leaves exactly the stages as keys. */
  lemma CompletedExact(c: Columns)
    requires c.Valid() && !NeedsMigration(c)
    ensures StagesExact(Completed(c))
  {
    StagesDistinct();
    CompletedByValid(c, STAGES);
    CompletedByExact(c, STAGES);
  }

  /** Completing columns that already have every key of `ss` changes nothing. */
  lemma CompletedByNoop(c: Columns, ss: seq<string>)
    requires forall s :: s in ss ==> s in c.lists
    ensures CompletedBy(c, ss) == c
  {
    MissingStagesNone(ss, c.lists);
    assert CompletedBy(c, ss).order == c.order;
    assert CompletedBy(c, ss).lists == c.lists;
  }

  /** After loading, the column keys are exactly the stages. */
  lemma InitialBoardStages(saved: Option<Board>)
    requires saved.Some? ==> saved.value.columns.Valid()
    ensures StagesExact(InitialBoard(saved).columns)
  {
    if saved.Some? && !NeedsMigration(saved.value.columns) {
      CompletedExact(saved.value.columns);
    }
  }

  /**
   * Columns that need no migration are kept as they were, in their order,
   * and each absent stage is added after them with no ids.
   */
  lemma InitialBoardKeeps(b: Board)
    requires b.columns.Valid() && !NeedsMigration(b.columns)
    ensures InitialBoard(Some(b)).initiatives == b.initiatives
    ensures InitialBoard(Some(b)).columns.order[..|b.columns.order|] == b.columns.order
    ensures forall k :: k in b.columns.lists ==> InitialBoard(Some(b)).columns.lists[k] == b.columns.lists[k]
    ensures forall k :: k in InitialBoard(Some(b)).columns.lists && k !in b.columns.lists ==>
              IsStage(k) && InitialBoard(Some(b)).columns.lists[k] == []
  {
    CompletedByValues(b.columns, STAGES);
  }

  /** Loading keeps the records and every placement, whichever way it goes. */
  lemma InitialBoardIds(b: Board)
    requires b.columns.Valid()
    ensures InitialBoard(Some(b)).initiatives == b.initiatives
    ensures Ids(InitialBoard(Some(b)).columns) == Ids(b.columns)
  {
    if NeedsMigration(b.columns) {
      MigrationKeepsIds(b.columns);
    } else {
      CompletedByIds(b.columns, STAGES);
    }
  }

  /** An id of an old column lands in its target stage, and the old key is gone. */
  lemma InitialBoardMigrates(b: Board, k: string, y: string)
    requires b.columns.Valid()
    requires k in b.columns.lists && !IsStage(k) && y in b.columns.lists[k]
    ensures y in InitialBoard(Some(b)).columns.lists[TargetStage(k)]
    ensures k !in InitialBoard(Some(b)).columns.lists
  {
    var c := b.columns;
    assert NeedsMigration(c);
    var i :| 0 <= i < |c.order| && c.order[i] == k;
    MigrationPlacement(c, TargetStage(k), y);
  }

  /** Loading an already loaded board gives it back unchanged. */
  lemma InitialBoardIdempotent(saved: Option<Board>)
    requires saved.Some? ==> saved.value.columns.Valid()
    ensures InitialBoard(Some(InitialBoard(saved))) == InitialBoard(saved)
  {
    var r := InitialBoard(saved);
    InitialBoardStages(saved);
    var c := r.columns;
    assert !NeedsMigration(c);
    CompletedByNoop(c, STAGES);
  }

  /** A saved board that met the invariants still meets them once loaded. */
  lemma InitialBoardInvariant(saved: Option<Board>)
    requires saved.Some? ==> saved.value.columns.Valid()
    requires saved.Some? ==>
      PlacedAreKnown(saved.value) && AtMostOnce(saved.value.columns) && KeyedById(saved.value)
    ensures Invariant(InitialBoard(saved))
  {
    InitialBoardStages(saved);
    if saved.None? {
      EmptyBoardInvariant();
    } else {
      InitialBoardIds(saved.value);
    }
  }
}
