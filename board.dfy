/** Initiatives and the board that places them in stage columns. */
module Boards {
  import opened Stages

  /** One tracked work item; `dependencies` are ids that may dangle. */
  datatype Initiative = Initiative(
    id: string,
    title: string,
    description: string,
    status: string,
    dependencies: seq<string>)

  /** The whole application state: placement by column and the records by id. */
  datatype Board = Board(columns: Columns, initiatives: map<string, Initiative>)

  /** The board the application starts from when nothing was saved. */
  function EmptyBoard(): (b: Board)
    ensures b.columns.order == STAGES && b.initiatives == map[]
    ensures forall s :: IsStage(s) ==> s in b.columns.lists && b.columns.lists[s] == []
  {
    Board(Bucketed([]), map[])
  }

  /** The column keys are exactly the stages. */
  predicate StagesExact(c: Columns) {
    c.Valid() && c.lists.Keys == STAGE_SET
  }

  /** Every placed id names a record. */
  predicate PlacedAreKnown(b: Board) {
    forall x :: x in Ids(b.columns) ==> x in b.initiatives
  }

  /** No id is placed twice, whether in one column or in two. */
  predicate AtMostOnce(c: Columns) {
    forall x :: x in Ids(c) ==> Ids(c)[x] <= 1
  }

  /** Each record is stored under its own id. */
  predicate KeyedById(b: Board) {
    forall k :: k in b.initiatives ==> b.initiatives[k].id == k
  }

  /** The board invariants that every operation keeps. */
  predicate Invariant(b: Board) {
    StagesExact(b.columns) && PlacedAreKnown(b) && AtMostOnce(b.columns) && KeyedById(b)
  }

  /** One column at most holds a given id, and holds it once at most. */
  lemma OneColumnEach(c: Columns, x: string, s: string, t: string)
    requires c.Valid() && AtMostOnce(c)
    requires s in c.lists && t in c.lists && x in c.lists[s] && x in c.lists[t]
    ensures s == t
    ensures multiset(c.lists[s])[x] == 1
  {
    var i :| 0 <= i < |c.order| && c.order[i] == s;
    var j :| 0 <= j < |c.order| && c.order[j] == t;
    assert ListOf(c.lists, s) == c.lists[s] && ListOf(c.lists, t) == c.lists[t];
    FlattenHolds(c.order, c.lists, i);
    assert x in Ids(c);
    if i < j {
      FlattenHoldsTwo(c.order, c.lists, i, j);
      assert false;
    } else if j < i {
      FlattenHoldsTwo(c.order, c.lists, j, i);
      assert false;
    }
  }

  lemma EmptyBoardInvariant()
    ensures Invariant(EmptyBoard())
  {
    var b := EmptyBoard();
    BucketedIds([]);
    assert Ids(b.columns) == multiset{};
  }
}
