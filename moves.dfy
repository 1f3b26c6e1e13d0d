/** Moving a card by drag and drop: a splice out of one column and into another, or within one. */
module Moves {
  import opened Wrappers
  import opened Stages
  import opened Boards

  /** A column and a position in it, as the drag library reports them. */
  datatype Location = Location(droppableId: string, index: nat)

  /** The end of a drag; `destination` is absent when the card was dropped outside every column. */
  datatype DropResult = DropResult(source: Location, destination: Option<Location>)

  /** `s.splice(i, 1)` for an index inside the list: the list without its element at `i`. */
  function RemoveAt(s: seq<string>, i: nat): (r: seq<string>)
    requires i < |s|
    ensures |r| == |s| - 1
    ensures forall j :: 0 <= j < |r| ==> r[j] == if j < i then s[j] else s[j + 1]
    ensures multiset(r) + multiset{s[i]} == multiset(s)
  {
    assert s == s[..i] + [s[i]] + s[i + 1..];
    s[..i] + s[i + 1..]
  }

  /** Where `splice(i, 0, x)` inserts into a list of length `n`: an index past the end means the end. */
  function Clamp(i: nat, n: nat): (r: nat)
    ensures r <= n
    ensures i <= n ==> r == i
    ensures n < i ==> r == n
  {
    if i < n then i else n
  }

  /** `s.splice(i, 0, x)`: `x` inserted before position `i`, or appended when `i` is past the end. */
  function InsertAt(s: seq<string>, i: nat, x: string): (r: seq<string>)
    ensures |r| == |s| + 1
    ensures r[Clamp(i, |s|)] == x
    ensures RemoveAt(r, Clamp(i, |s|)) == s
    ensures multiset(r) == multiset(s) + multiset{x}
  {
    var k := Clamp(i, |s|);
    var r := s[..k] + [x] + s[k..];
    assert RemoveAt(r, k) == s by {
      assert forall j :: 0 <= j < |s| ==> RemoveAt(r, k)[j] == s[j];
    }
    assert s == s[..k] + s[k..];
    r
  }

  /** Dropped outside every column, or back onto the very place it came from. */
  predicate IsNoOp(r: DropResult) {
    || r.destination.None?
    || (r.source.droppableId == r.destination.value.droppableId && r.source.index == r.destination.value.index)
  }

  /**
   * What the drag library guarantees for a real drop: both columns exist
   * and the source index is the position of a card in its column.
   */
  predicate CanMove(c: Columns, r: DropResult) {
    && r.destination.Some?
    && r.source.droppableId in c.lists
    && r.source.index < |c.lists[r.source.droppableId]|
    && r.destination.value.droppableId in c.lists
  }

  /** The board after `handleDragEnd`: remove at the source index, then insert at the destination index. */
  function DragEnd(b: Board, r: DropResult): (nb: Board)
    requires b.columns.Valid()
    requires !IsNoOp(r) ==> CanMove(b.columns, r)
    ensures IsNoOp(r) ==> nb == b
    ensures nb.initiatives == b.initiatives
    ensures nb.columns.Valid()
    ensures nb.columns.order == b.columns.order && nb.columns.lists.Keys == b.columns.lists.Keys
  {
    if IsNoOp(r) then b
    else
      var src, dst := r.source, r.destination.value;
      var moved := b.columns.lists[src.droppableId][src.index];
      var removed := b.columns.Set(src.droppableId, RemoveAt(b.columns.lists[src.droppableId], src.index));
      var inserted := removed.Set(dst.droppableId, InsertAt(removed.lists[dst.droppableId], dst.index, moved));
      Board(inserted, b.initiatives)
  }

  /**
   * The card taken from the source index sits at the clamped destination
   * index; removing it from there gives back the destination list as it was
   * once the card had left; the source column loses only that card; every
   * other column is as it was.
   */
  lemma MovePlacesCard(b: Board, r: DropResult)
    requires b.columns.Valid() && !IsNoOp(r) && CanMove(b.columns, r)
    ensures var src, dst := r.source, r.destination.value;
      var old_src := b.columns.lists[src.droppableId];
      var base := if src.droppableId == dst.droppableId then RemoveAt(old_src, src.index)
                  else b.columns.lists[dst.droppableId];
      var after := DragEnd(b, r).columns.lists;
      && after[dst.droppableId][Clamp(dst.index, |base|)] == old_src[src.index]
      && RemoveAt(after[dst.droppableId], Clamp(dst.index, |base|)) == base
      && (src.droppableId != dst.droppableId ==> after[src.droppableId] == RemoveAt(old_src, src.index))
      && (forall k :: k in after && k != src.droppableId && k != dst.droppableId ==> after[k] == b.columns.lists[k])
  {
  }

  /** A move neither loses nor duplicates a placement. */
  lemma MovePreservesIds(b: Board, r: DropResult)
    requires b.columns.Valid()
    requires !IsNoOp(r) ==> CanMove(b.columns, r)
    ensures Ids(DragEnd(b, r).columns) == Ids(b.columns)
  {
    if !IsNoOp(r) {
      var src, dst := r.source, r.destination.value;
      var c := b.columns;
      var oldSrc := c.lists[src.droppableId];
      var moved := oldSrc[src.index];
      var removed := c.Set(src.droppableId, RemoveAt(oldSrc, src.index));
      var oldDst := removed.lists[dst.droppableId];
      var inserted := removed.Set(dst.droppableId, InsertAt(oldDst, dst.index, moved));
      SetIds(c, src.droppableId, RemoveAt(oldSrc, src.index));
      SetIds(removed, dst.droppableId, InsertAt(oldDst, dst.index, moved));
      TakeAndPut(Ids(c), Ids(removed), Ids(inserted), multiset(RemoveAt(oldSrc, src.index)), multiset(oldDst), moved);
      assert DragEnd(b, r).columns == inserted;
    }
  }

  /**
   * Taking `m` out of one list and putting it into another: when the first
   * step trades `r + {m}` for `r` and the second trades `d` for `d + {m}`,
   * the totals end where they started.
   */
  lemma TakeAndPut(c0: multiset<string>, c1: multiset<string>, c2: multiset<string>,
                   r: multiset<string>, d: multiset<string>, m: string)
    requires c1 + (r + multiset{m}) == c0 + r
    requires c2 + d == c1 + (d + multiset{m})
    ensures c2 == c0
  {
    forall z ensures c2[z] == c0[z] {
      assert (c1 + (r + multiset{m}))[z] == (c0 + r)[z];
      assert (c2 + d)[z] == (c1 + (d + multiset{m}))[z];
    }
  }

  /** A move keeps the board invariants. */
  lemma MovePreservesInvariant(b: Board, r: DropResult)
    requires Invariant(b)
    requires !IsNoOp(r) ==> CanMove(b.columns, r)
    ensures Invariant(DragEnd(b, r))
  {
    MovePreservesIds(b, r);
  }
}
