/**
 * The fixed stage list and the `columns` object of a board: an ordered
 * mapping from a column key to the ids placed in that column.
 */
module Stages {

  /** The six lifecycle stages, in display order. */
  const STAGES: seq<string> := ["DEV", "QA", "DEMO", "UAT", "Change Ticket", "PROD"]

  /** The same stages as a set. */
  const STAGE_SET: set<string> := set s | s in STAGES

  /** The stage that receives ids whose old column has no current stage. */
  const DEFAULT_STAGE: string := "DEV"

  predicate IsStage(s: string) {
    s in STAGES
  }

  predicate Distinct(s: seq<string>) {
    forall i, j :: 0 <= i < j < |s| ==> s[i] != s[j]
  }

  lemma DistinctNotEarlier(s: seq<string>, i: nat)
    requires Distinct(s) && i < |s|
    ensures s[i] !in s[..i]
  {
  }

  lemma DistinctPrefix(s: seq<string>, i: nat)
    requires Distinct(s) && i <= |s|
    ensures Distinct(s[..i])
  {
    forall a, b | 0 <= a < b < i ensures s[..i][a] != s[..i][b] {
      assert s[..i][a] == s[a] && s[..i][b] == s[b];
    }
  }

  lemma PrefixSnoc(s: seq<string>, i: nat)
    requires i < |s|
    ensures s[..i + 1] == s[..i] + [s[i]]
    ensures s[..i + 1][..i] == s[..i]
    ensures |s[..i + 1]| == i + 1 && s[..i + 1][i] == s[i]
  {
  }

  lemma StagesDistinct()
    ensures Distinct(STAGES)
    ensures |STAGE_SET| == |STAGES| == 6
    ensures IsStage(DEFAULT_STAGE)
  {
    assert STAGE_SET == {"DEV", "QA", "DEMO", "UAT", "Change Ticket", "PROD"};
  }

  lemma DistinctConcat(a: seq<string>, b: seq<string>)
    requires Distinct(a) && Distinct(b)
    requires forall x :: x in a ==> x !in b
    ensures Distinct(a + b)
  {
    var ab := a + b;
    forall i, j | 0 <= i < j < |ab|
      ensures ab[i] != ab[j]
    {
      if i < |a| && |a| <= j {
        assert ab[i] in a && ab[j] == b[j - |a|];
      } else if |a| <= i {
        assert ab[i] == b[i - |a|] && ab[j] == b[j - |a|];
      }
    }
  }

  /**
   * A JavaScript object whose properties are id lists: `order` is the order
   * in which its keys enumerate (insertion order) and `lists` holds the
   * property values.
   */
  datatype Columns = Columns(order: seq<string>, lists: map<string, seq<string>>) {

    /** Each key is enumerated once, and exactly the present keys are. */
    predicate Valid() {
      && Distinct(order)
      && (forall k :: k in order ==> k in lists)
      && (forall k :: k in lists ==> k in order)
    }

    /** Property assignment `columns[k] = v`: a present key keeps its place, a new key is enumerated last. */
    function Set(k: string, v: seq<string>): (r: Columns)
      requires Valid()
      ensures r.Valid()
      ensures r.lists == lists[k := v]
      ensures r.order == if k in lists then order else order + [k]
    {
      Columns(if k in lists then order else order + [k], lists[k := v])
    }
  }

  /** `columns[k]`, an absent key reading as an empty list. */
  function ListOf(lists: map<string, seq<string>>, k: string): seq<string> {
    if k in lists then lists[k] else []
  }

  /** The lists named by `keys`, concatenated in key order. */
  function Flatten(keys: seq<string>, lists: map<string, seq<string>>): seq<string> {
    if keys == [] then []
    else Flatten(keys[..|keys| - 1], lists) + ListOf(lists, keys[|keys| - 1])
  }

  /** Every placement of every id on the board, counted with multiplicity. */
  function Ids(c: Columns): multiset<string> {
    multiset(Flatten(c.order, c.lists))
  }

  lemma {:induction false} FlattenConcat(a: seq<string>, b: seq<string>, lists: map<string, seq<string>>)
    ensures Flatten(a + b, lists) == Flatten(a, lists) + Flatten(b, lists)
    decreases |b|
  {
    if b == [] {
      assert a + b == a;
    } else {
      var n := |b| - 1;
      assert (a + b)[..|a + b| - 1] == a + b[..n];
      FlattenConcat(a, b[..n], lists);
    }
  }

  /** Keys whose lists agree give the same concatenation. */
  lemma {:induction false} FlattenAgree(keys: seq<string>, l1: map<string, seq<string>>, l2: map<string, seq<string>>)
    requires forall k :: k in keys ==> ListOf(l1, k) == ListOf(l2, k)
    ensures Flatten(keys, l1) == Flatten(keys, l2)
  {
    if keys != [] {
      FlattenAgree(keys[..|keys| - 1], l1, l2);
    }
  }

  /** Keys all of whose lists are empty contribute nothing. */
  lemma {:induction false} FlattenEmpty(keys: seq<string>, lists: map<string, seq<string>>)
    requires forall k :: k in keys ==> ListOf(lists, k) == []
    ensures Flatten(keys, lists) == []
  {
    if keys != [] {
      FlattenEmpty(keys[..|keys| - 1], lists);
    }
  }

  /**
   * Replacing the list of one enumerated key replaces its ids, and no
   * other ids, in the concatenation.
   */
  lemma {:induction false} FlattenUpdate(keys: seq<string>, lists: map<string, seq<string>>, k: string, v: seq<string>)
    requires Distinct(keys) && k in keys
    ensures multiset(Flatten(keys, lists[k := v])) + multiset(ListOf(lists, k))
         == multiset(Flatten(keys, lists)) + multiset(v)
  {
    var n := |keys| - 1;
    var init := keys[..n];
    assert Distinct(init);
    if keys[n] == k {
      assert k !in init;
      FlattenAgree(init, lists[k := v], lists);
    } else {
      FlattenUpdate(init, lists, k, v);
      var upd := lists[k := v];
      var a, b := multiset(Flatten(init, upd)), multiset(Flatten(init, lists));
      var l := multiset(ListOf(lists, keys[n]));
      assert ListOf(upd, keys[n]) == ListOf(lists, keys[n]);
      assert multiset(Flatten(keys, upd)) == a + l;
      assert multiset(Flatten(keys, lists)) == b + l;
      MultisetShift(a, b, multiset(ListOf(lists, k)), multiset(v), l);
    }
  }

  /** Adding the same multiset to both sides of an equation keeps it. */
  lemma MultisetShift(a: multiset<string>, b: multiset<string>, x: multiset<string>, y: multiset<string>, l: multiset<string>)
    requires a + x == b + y
    ensures a + l + x == b + l + y
  {
    forall z ensures (a + l + x)[z] == (b + l + y)[z] {
      assert (a + x)[z] == (b + y)[z];
    }
  }

  /** Two maps of lists with the same keys and the same list under each key are equal. */
  lemma SameLists(m: map<string, seq<string>>, n: map<string, seq<string>>)
    requires m.Keys == n.Keys && forall k :: k in n ==> m[k] == n[k]
    ensures m == n
  {
  }

  /** The list of any enumerated key is part of the concatenation. */
  lemma {:induction false} FlattenHolds(keys: seq<string>, lists: map<string, seq<string>>, i: nat)
    requires i < |keys|
    ensures multiset(ListOf(lists, keys[i])) <= multiset(Flatten(keys, lists))
  {
    var n := |keys| - 1;
    var init := keys[..n];
    assert multiset(Flatten(keys, lists)) == multiset(Flatten(init, lists)) + multiset(ListOf(lists, keys[n]));
    if i < n {
      assert init[i] == keys[i];
      FlattenHolds(init, lists, i);
    }
  }

  /** The lists of two different positions are disjoint parts of the concatenation. */
  lemma {:induction false} FlattenHoldsTwo(keys: seq<string>, lists: map<string, seq<string>>, i: nat, j: nat)
    requires i < j < |keys|
    ensures multiset(ListOf(lists, keys[i])) + multiset(ListOf(lists, keys[j])) <= multiset(Flatten(keys, lists))
  {
    var n := |keys| - 1;
    var init := keys[..n];
    var a, b := multiset(ListOf(lists, keys[i])), multiset(ListOf(lists, keys[j]));
    var rest, lastIds := multiset(Flatten(init, lists)), multiset(ListOf(lists, keys[n]));
    assert multiset(Flatten(keys, lists)) == rest + lastIds;
    assert init[i] == keys[i];
    if j < n {
      assert init[j] == keys[j];
      FlattenHoldsTwo(init, lists, i, j);
      MultisetGrow(a + b, rest, lastIds);
    } else {
      assert b == lastIds;
      FlattenHolds(init, lists, i);
      MultisetGrow(a, rest, lastIds);
    }
    assert a + b <= rest + lastIds;
  }

  /** A sub-multiset stays one when both sides grow by the same multiset, or when only the larger grows. */
  lemma MultisetGrow(a: multiset<string>, r: multiset<string>, l: multiset<string>)
    requires a <= r
    ensures a + l <= r + l && a <= r + l
  {
    forall z ensures (a + l)[z] <= (r + l)[z] && a[z] <= (r + l)[z] {
      assert a[z] <= r[z];
    }
  }

  /** Replacing a present column's list trades its ids for the new list's ids. */
  lemma SetIds(c: Columns, k: string, v: seq<string>)
    requires c.Valid() && k in c.lists
    ensures Ids(c.Set(k, v)) + multiset(c.lists[k]) == Ids(c) + multiset(v)
  {
    FlattenUpdate(c.order, c.lists, k, v);
    assert ListOf(c.lists, k) == c.lists[k];
  }

  lemma MultisetCancel(a: multiset<string>, b: multiset<string>, c: multiset<string>)
    requires a + c == b + c
    ensures a == b
  {
    assert forall y :: a[y] == b[y] by {
      forall y ensures a[y] == b[y] {
        assert (a + c)[y] == (b + c)[y];
      }
    }
  }

  /** A batch of ids headed for the column `target`. */
  datatype Batch = Batch(target: string, ids: seq<string>)

  /** The ids of the batches aimed at `s`, each batch appended in turn. */
  function Bucket(batches: seq<Batch>, s: string): seq<string> {
    if batches == [] then []
    else
      var last := batches[|batches| - 1];
      if last.target == s then Bucket(batches[..|batches| - 1], s) + last.ids
      else Bucket(batches[..|batches| - 1], s)
  }

  /** The ids of the batches whose target is a stage, in batch order. */
  function Routed(batches: seq<Batch>): seq<string> {
    if batches == [] then []
    else
      var last := batches[|batches| - 1];
      if IsStage(last.target) then Routed(batches[..|batches| - 1]) + last.ids
      else Routed(batches[..|batches| - 1])
  }

  /**
   * A fresh object with one column per stage, in stage order, filled by
   * appending each batch to its target stage; a batch whose target is not
   * a stage lands nowhere.
   */
  function Bucketed(batches: seq<Batch>): (c: Columns)
    ensures c.Valid() && c.order == STAGES && c.lists.Keys == STAGE_SET
    ensures forall s :: s in c.lists <==> IsStage(s)
    ensures forall s :: IsStage(s) ==> c.lists[s] == Bucket(batches, s)
  {
    StagesDistinct();
    Columns(STAGES, map s | s in STAGES :: Bucket(batches, s))
  }

  lemma BucketSnoc(batches: seq<Batch>, x: Batch, s: string)
    ensures Bucket(batches + [x], s) == if x.target == s then Bucket(batches, s) + x.ids else Bucket(batches, s)
  {
    assert (batches + [x])[..|batches|] == batches;
  }

  /** One more batch changes only its target's column, by appending to it. */
  lemma BucketedSnoc(batches: seq<Batch>, x: Batch)
    ensures IsStage(x.target) ==>
      Bucketed(batches + [x]) == Bucketed(batches).Set(x.target, Bucketed(batches).lists[x.target] + x.ids)
    ensures !IsStage(x.target) ==> Bucketed(batches + [x]) == Bucketed(batches)
  {
    var c, d := Bucketed(batches), Bucketed(batches + [x]);
    BucketedSnocLists(batches, x);
    if IsStage(x.target) {
      SameLists(d.lists, c.lists[x.target := c.lists[x.target] + x.ids]);
    } else {
      SameLists(d.lists, c.lists);
    }
  }

  /** Column by column, one more batch appends to its target's list only. */
  lemma BucketedSnocLists(batches: seq<Batch>, x: Batch)
    ensures Bucketed(batches + [x]).lists.Keys == Bucketed(batches).lists.Keys
    ensures forall s :: IsStage(s) ==>
      Bucketed(batches + [x]).lists[s] == if x.target == s then Bucketed(batches).lists[s] + x.ids else Bucketed(batches).lists[s]
  {
    forall s | IsStage(s)
      ensures Bucketed(batches + [x]).lists[s] == if x.target == s then Bucketed(batches).lists[s] + x.ids else Bucketed(batches).lists[s]
    {
      BucketSnoc(batches, x, s);
    }
  }

  /** Batch `i` aimed at a stage appends its ids to that stage's column of the prefix before it. */
  lemma BucketedStep(batches: seq<Batch>, i: nat)
    requires i < |batches| && IsStage(batches[i].target)
    ensures var c, x := Bucketed(batches[..i]), batches[i];
      Bucketed(batches[..i + 1]) == c.Set(x.target, c.lists[x.target] + x.ids)
  {
    assert batches[..i + 1] == batches[..i] + [batches[i]];
    BucketedSnoc(batches[..i], batches[i]);
  }

  /** Bucketing loses and duplicates nothing that is aimed at a stage. */
  lemma {:induction false} BucketedIds(batches: seq<Batch>)
    ensures Ids(Bucketed(batches)) == multiset(Routed(batches))
  {
    StagesDistinct();
    if batches == [] {
      FlattenEmpty(STAGES, Bucketed(batches).lists);
      assert Ids(Bucketed(batches)) == multiset{};
    } else {
      var n := |batches| - 1;
      var init, x := batches[..n], batches[n];
      assert batches == init + [x];
      BucketedIds(init);
      BucketedSnoc(init, x);
      var c := Bucketed(init);
      if IsStage(x.target) {
        var v := c.lists[x.target] + x.ids;
        SetIds(c, x.target, v);
        var after, old_ := Ids(c.Set(x.target, v)), multiset(c.lists[x.target]);
        assert multiset(v) == old_ + multiset(x.ids);
        assert after + old_ == Ids(c) + multiset(x.ids) + old_;
        MultisetCancel(after, Ids(c) + multiset(x.ids), old_);
        assert Routed(batches) == Routed(init) + x.ids;
      } else {
        assert Bucketed(batches) == c;
        assert Routed(batches) == Routed(init);
      }
    }
  }

  /** An id lands in the column of every batch that carries it, and only there. */
  lemma {:induction false} BucketHas(batches: seq<Batch>, s: string, y: string)
    ensures y in Bucket(batches, s) <==> exists i :: 0 <= i < |batches| && batches[i].target == s && y in batches[i].ids
  {
    if batches != [] {
      var n := |batches| - 1;
      BucketHas(batches[..n], s, y);
      if y in Bucket(batches, s) && y !in Bucket(batches[..n], s) {
        assert batches[n].target == s && y in batches[n].ids;
      }
      if exists i :: 0 <= i < |batches| && batches[i].target == s && y in batches[i].ids {
        var i :| 0 <= i < |batches| && batches[i].target == s && y in batches[i].ids;
        if i < n {
          assert batches[..n][i] == batches[i];
        }
      }
    }
  }

  /** `STAGES.forEach(stage => { columns[stage] = []; })` on an empty object. */
  method InitStageColumns() returns (c: Columns)
    ensures c == Bucketed([])
    ensures forall s :: IsStage(s) ==> c.lists[s] == []
  {
    StagesDistinct();
    c := Columns([], map[]);
    for i := 0 to |STAGES|
      invariant c.Valid()
      invariant c.order == STAGES[..i]
      invariant c.lists.Keys == set s | s in STAGES[..i]
      invariant forall s :: s in c.lists ==> c.lists[s] == []
    {
      assert STAGES[i] !in STAGES[..i];
      assert STAGES[..i + 1] == STAGES[..i] + [STAGES[i]];
      c := c.Set(STAGES[i], []);
    }
    assert STAGES[..|STAGES|] == STAGES;
    SameLists(c.lists, Bucketed([]).lists);
  }
}
