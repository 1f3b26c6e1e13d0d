/** Saving the initiative dialog (create or update) and deleting an initiative. */
module Editing {
  import opened Wrappers
  import opened Stages
  import opened Boards
  import opened JsStrings

  /** The dialog's form fields. */
  datatype Form = Form(title: string, description: string, dependencies: seq<string>, status: string)

  /** `{ id, ...form }`: a new record made of the form's fields. */
  function NewRecord(id: string, form: Form): Initiative {
    Initiative(id, form.title, form.description, form.status, form.dependencies)
  }

  /** `{ ...record, ...form }`: the form's fields over an existing record, which keeps its id. */
  function Merged(record: Initiative, form: Form): Initiative {
    record.(title := form.title, description := form.description,
            status := form.status, dependencies := form.dependencies)
  }

  /**
   * The create path: `newId` becomes the first id of column `stage` and a
   * record under `newId` holds the form.
   */
  function Create(b: Board, stage: string, form: Form, newId: string): (nb: Board)
    requires b.columns.Valid() && stage in b.columns.lists
    ensures nb.columns.Valid() && nb.columns.order == b.columns.order
    ensures nb.columns.lists.Keys == b.columns.lists.Keys
    ensures |nb.columns.lists[stage]| == |b.columns.lists[stage]| + 1
    ensures nb.columns.lists[stage][0] == newId && nb.columns.lists[stage][1..] == b.columns.lists[stage]
    ensures forall k :: k in b.columns.lists && k != stage ==> nb.columns.lists[k] == b.columns.lists[k]
    ensures nb.initiatives.Keys == b.initiatives.Keys + {newId}
    ensures nb.initiatives[newId] == Initiative(newId, form.title, form.description, form.status, form.dependencies)
    ensures forall k :: k in b.initiatives && k != newId ==> nb.initiatives[k] == b.initiatives[k]
  {
    Board(b.columns.Set(stage, [newId] + b.columns.lists[stage]),
          b.initiatives[newId := NewRecord(newId, form)])
  }

  /** The update path: the record under `editId` takes the form's fields; nothing else changes. */
  function Update(b: Board, editId: string, form: Form): (nb: Board)
    requires editId in b.initiatives
    ensures nb.columns == b.columns
    ensures nb.initiatives.Keys == b.initiatives.Keys
    ensures var r := nb.initiatives[editId];
      && r.id == b.initiatives[editId].id
      && r.title == form.title && r.description == form.description
      && r.status == form.status && r.dependencies == form.dependencies
    ensures forall k :: k in b.initiatives && k != editId ==> nb.initiatives[k] == b.initiatives[k]
  {
    Board(b.columns, b.initiatives[editId := Merged(b.initiatives[editId], form)])
  }

  /** `if (editId)`: an id is being edited; null and "" are falsy. */
  predicate IsEditing(editId: Option<string>) {
    editId.Some? && editId.value != []
  }

  /**
   * `handleSaveInitiative`: a blank title saves nothing; otherwise the record
   * being edited is updated, or a new one under `newId` is added to column
   * `stage`.
   */
  function SaveInitiative(b: Board, editId: Option<string>, stage: string, form: Form, newId: string): (nb: Board)
    requires b.columns.Valid()
    requires !IsBlank(form.title) && IsEditing(editId) ==> editId.value in b.initiatives
    requires !IsBlank(form.title) && !IsEditing(editId) ==> stage in b.columns.lists
    ensures AllWhitespace(form.title) ==> nb == b
    ensures nb.columns.Valid()
  {
    TrimEmptyIff(form.title);
    if IsBlank(form.title) then b
    else if IsEditing(editId) then Update(b, editId.value, form)
    else Create(b, stage, form, newId)
  }

  /** The board after `handleDeleteInitiative(id)`. */
  function Deleted(b: Board, id: string): Board {
    Board(Columns(b.columns.order, map k | k in b.columns.lists :: Without(b.columns.lists[k], id)),
          b.initiatives - {id})
  }

  /** The columns of `c` under `keys`, in that order, each without `id`. */
  function FilteredPrefix(c: Columns, keys: seq<string>, id: string): Columns
    requires forall k :: k in keys ==> k in c.lists
  {
    Columns(keys, map k | k in keys :: Without(c.lists[k], id))
  }

  /** Filtering one more key sets that key on the columns filtered so far. */
  lemma FilteredSnoc(c: Columns, pre: seq<string>, k: string, id: string)
    requires Distinct(pre) && k !in pre && k in c.lists
    requires forall x :: x in pre ==> x in c.lists
    ensures FilteredPrefix(c, pre, id).Valid()
    ensures FilteredPrefix(c, pre + [k], id) == FilteredPrefix(c, pre, id).Set(k, Without(c.lists[k], id))
  {
    var p, q := FilteredPrefix(c, pre, id), FilteredPrefix(c, pre + [k], id);
    var n := p.lists[k := Without(c.lists[k], id)];
    assert forall x :: x in pre + [k] <==> x in pre || x == k;
    assert q.lists.Keys == n.Keys;
    SameLists(q.lists, n);
  }

  /** Filtering every key of the enumeration gives the deleted board's columns. */
  lemma FilteredAll(b: Board, id: string)
    requires b.columns.Valid()
    ensures FilteredPrefix(b.columns, b.columns.order, id) == Deleted(b, id).columns
  {
    assert FilteredPrefix(b.columns, b.columns.order, id).lists.Keys == Deleted(b, id).columns.lists.Keys;
  }

  /** Rebuilds every column, key by key in enumeration order, without `id`, and drops its record. */
  method DeleteInitiative(b: Board, id: string) returns (nb: Board)
    requires b.columns.Valid()
    ensures nb == Deleted(b, id)
  {
    var keys := b.columns.order;
    var newColumns := Columns([], map[]);
    assert newColumns == FilteredPrefix(b.columns, keys[..0], id);
    for i := 0 to |keys|
      invariant newColumns == FilteredPrefix(b.columns, keys[..i], id)
    {
      DistinctNotEarlier(keys, i);
      DistinctPrefix(keys, i);
      PrefixSnoc(keys, i);
      FilteredSnoc(b.columns, keys[..i], keys[i], id);
      newColumns := newColumns.Set(keys[i], Without(b.columns.lists[keys[i]], id));
    }
    assert keys[..|keys|] == keys;
    FilteredAll(b, id);
    nb := Board(newColumns, b.initiatives - {id});
  }
}

/** What saving and deleting guarantee. */
module EditingProperties {
  import opened Wrappers
  import opened Stages
  import opened Boards
  import opened JsStrings
  import opened Editing

  /** Filtering every list filters their concatenation. */
  lemma {:induction false} FlattenWithout(keys: seq<string>, lists: map<string, seq<string>>,
                                          filtered: map<string, seq<string>>, x: string)
    requires forall k :: k in keys ==> ListOf(filtered, k) == Without(ListOf(lists, k), x)
    ensures Flatten(keys, filtered) == Without(Flatten(keys, lists), x)
  {
    if keys != [] {
      var init := keys[..|keys| - 1];
      FlattenWithout(init, lists, filtered, x);
      WithoutConcat(Flatten(init, lists), ListOf(lists, keys[|keys| - 1]), x);
    }
  }

  /** Deleting removes every placement of `id` and keeps every other placement. */
  lemma DeleteIds(b: Board, id: string)
    ensures Ids(Deleted(b, id).columns) == Ids(b.columns)[id := 0]
  {
    var d := Deleted(b, id).columns;
    forall k | k in b.columns.order
      ensures ListOf(d.lists, k) == Without(ListOf(b.columns.lists, k), id)
    {
    }
    FlattenWithout(b.columns.order, b.columns.lists, d.lists, id);
  }

  /**
   * After deleting, `id` has no record and no column holds it; the columns,
   * their order and every other record, dependencies naming `id` included,
   * are as they were.
   */
  lemma DeleteRemoves(b: Board, id: string)
    ensures id !in Deleted(b, id).initiatives && id !in Ids(Deleted(b, id).columns)
    ensures forall k :: k in Deleted(b, id).columns.lists ==> id !in Deleted(b, id).columns.lists[k]
    ensures Deleted(b, id).columns.order == b.columns.order
    ensures Deleted(b, id).columns.lists.Keys == b.columns.lists.Keys
    ensures forall k :: k in b.initiatives && k != id ==>
              k in Deleted(b, id).initiatives && Deleted(b, id).initiatives[k] == b.initiatives[k]
  {
    DeleteIds(b, id);
  }

  /** Deleting twice is deleting once. */
  lemma DeleteIdempotent(b: Board, id: string)
    ensures Deleted(Deleted(b, id), id) == Deleted(b, id)
  {
    var d := Deleted(b, id);
    var dd := Deleted(d, id);
    assert dd.columns.lists.Keys == d.columns.lists.Keys;
    forall k | k in d.columns.lists ensures dd.columns.lists[k] == d.columns.lists[k] {
      assert id !in d.columns.lists[k];
    }
    SameLists(dd.columns.lists, d.columns.lists);
    assert dd.initiatives == d.initiatives;
  }

  /** Deleting keeps the board invariants. */
  lemma DeletePreservesInvariant(b: Board, id: string)
    requires Invariant(b)
    ensures Invariant(Deleted(b, id))
  {
    DeleteIds(b, id);
    var d := Deleted(b, id);
    assert d.columns.lists.Keys == b.columns.lists.Keys;
  }

  /** Creating places `newId` once more and leaves every other placement alone. */
  lemma CreateIds(b: Board, stage: string, form: Form, newId: string)
    requires b.columns.Valid() && stage in b.columns.lists
    ensures Ids(Create(b, stage, form, newId).columns) == Ids(b.columns) + multiset{newId}
  {
    var old_list := b.columns.lists[stage];
    SetIds(b.columns, stage, [newId] + old_list);
    MultisetCancel(Ids(Create(b, stage, form, newId).columns), Ids(b.columns) + multiset{newId}, multiset(old_list));
  }

  /** Creating under an id that has no record keeps the board invariants. */
  lemma CreatePreservesInvariant(b: Board, stage: string, form: Form, newId: string)
    requires Invariant(b) && stage in b.columns.lists && newId !in b.initiatives
    ensures Invariant(Create(b, stage, form, newId))
  {
    var nb := Create(b, stage, form, newId);
    CreateIds(b, stage, form, newId);
    assert newId !in Ids(b.columns);
    AddedOnce(b.columns, nb.columns, newId);
    AddedKnown(b, nb, newId);
  }

  /** Placing a new id that gets a record keeps every placed id known. */
  lemma AddedKnown(b: Board, nb: Board, x: string)
    requires PlacedAreKnown(b) && Ids(nb.columns) == Ids(b.columns) + multiset{x}
    requires x in nb.initiatives && b.initiatives.Keys <= nb.initiatives.Keys
    ensures PlacedAreKnown(nb)
  {
    forall y | y in Ids(nb.columns) ensures y in nb.initiatives {
      if y != x {
        assert y in Ids(b.columns);
      }
    }
  }

  /** Adding one placement of an id that had none keeps every id in one place at most. */
  lemma AddedOnce(c: Columns, d: Columns, x: string)
    requires AtMostOnce(c) && x !in Ids(c) && Ids(d) == Ids(c) + multiset{x}
    ensures AtMostOnce(d)
  {
    forall y | y in Ids(d) ensures Ids(d)[y] <= 1 {
      if y != x {
        assert Ids(d)[y] == Ids(c)[y];
      }
    }
  }

  /** An id that no column holds is in none of the lists. */
  lemma AbsentFromEvery(c: Columns, x: string)
    requires c.Valid() && x !in Ids(c)
    ensures forall k :: k in c.lists ==> x !in c.lists[k]
  {
    forall k | k in c.lists ensures x !in c.lists[k] {
      var i :| 0 <= i < |c.order| && c.order[i] == k;
      FlattenHolds(c.order, c.lists, i);
    }
  }

  /** Deleting an initiative just created under a fresh id gives the board back. */
  lemma DeleteUndoesCreate(b: Board, stage: string, form: Form, newId: string)
    requires b.columns.Valid() && stage in b.columns.lists
    requires newId !in b.initiatives && newId !in Ids(b.columns)
    ensures Deleted(Create(b, stage, form, newId), newId) == b
  {
    var created := Create(b, stage, form, newId);
    DeleteUndoesCreateColumns(b, stage, form, newId);
    assert created.initiatives == b.initiatives[newId := NewRecord(newId, form)];
    RemoveAdded(b.initiatives, newId, NewRecord(newId, form));
  }

  /** Removing a key just added to a map that lacked it gives the map back. */
  lemma RemoveAdded(m: map<string, Initiative>, k: string, v: Initiative)
    requires k !in m
    ensures m[k := v] - {k} == m
  {
    assert (m[k := v] - {k}).Keys == m.Keys;
  }

  /** The column half of `DeleteUndoesCreate`. */
  lemma DeleteUndoesCreateColumns(b: Board, stage: string, form: Form, newId: string)
    requires b.columns.Valid() && stage in b.columns.lists
    requires newId !in Ids(b.columns)
    ensures Deleted(Create(b, stage, form, newId), newId).columns == b.columns
  {
    AbsentFromEvery(b.columns, newId);
    var c := b.columns;
    var added := c.lists[stage := [newId] + c.lists[stage]];
    var created := b.columns.Set(stage, [newId] + c.lists[stage]);
    assert created == Columns(c.order, added);
    assert Create(b, stage, form, newId).columns == created;
    FilterRestores(c.lists, stage, newId);
  }

  /** Filtering `x` out of lists that held it only at the head of one of them gives the lists back. */
  lemma FilterRestores(lists: map<string, seq<string>>, stage: string, x: string)
    requires stage in lists && forall k :: k in lists ==> x !in lists[k]
    ensures var added := lists[stage := [x] + lists[stage]];
      (map k | k in added :: Without(added[k], x)) == lists
  {
    var added := lists[stage := [x] + lists[stage]];
    var m := map k | k in added :: Without(added[k], x);
    forall k | k in lists ensures m[k] == lists[k] {
      if k == stage {
        WithoutConcat([x], lists[stage], x);
        assert Without([x], x) == [];
      }
    }
    assert m.Keys == lists.Keys;
  }

  /** Updating keeps the board invariants. */
  lemma UpdatePreservesInvariant(b: Board, editId: string, form: Form)
    requires Invariant(b) && editId in b.initiatives
    ensures Invariant(Update(b, editId, form))
  {
  }

  /** Of two updates of one record, the later one wins. */
  lemma UpdateLastWins(b: Board, editId: string, f1: Form, f2: Form)
    requires editId in b.initiatives
    ensures Update(Update(b, editId, f1), editId, f2) == Update(b, editId, f2)
  {
  }

  /** Saving keeps the board invariants when a new record gets an id with no record yet. */
  lemma SavePreservesInvariant(b: Board, editId: Option<string>, stage: string, form: Form, newId: string)
    requires Invariant(b)
    requires !JsStrings.IsBlank(form.title) && IsEditing(editId) ==> editId.value in b.initiatives
    requires !JsStrings.IsBlank(form.title) && !IsEditing(editId) ==> stage in b.columns.lists && newId !in b.initiatives
    ensures Invariant(SaveInitiative(b, editId, stage, form, newId))
  {
    if !JsStrings.IsBlank(form.title) {
      if IsEditing(editId) {
        UpdatePreservesInvariant(b, editId.value, form);
      } else {
        CreatePreservesInvariant(b, stage, form, newId);
      }
    }
  }
}
