/** The two veto rules of src/App.js. The drop handler applies them to the board it is about to change; the live
    drag-update handler recomputes them on unmodified copies and publishes `containerBlocked` and `itemBlocked`. */
module Validator {
  import opened Splice
  import opened Board

  /** Column-pair rule: with three or more columns, nothing may go from the column at position 0 to the column
      at position 2 (positions in the current board order, not particular columns). */
  predicate PairDenied<T>(columns: seq<Column<T>>, sourceId: string, destId: string)
  {
    |columns| >= 3 && sourceId == columns[0].id && destId == columns[2].id
  }

  /** Even-number rule: an even-numbered item may not land directly before an even-numbered item, the one at
      `neighbours[at]`. An index past the end never denies (`arr[i]?.number % 2 === 0` is false there). */
  predicate ParityDenied(moved: Item, neighbours: seq<Item>, at: nat)
  {
    Even(moved.number) && at < |neighbours| && Even(neighbours[at].number)
  }

  /** The neighbour index of the live check: one further when dragging down within a column. */
  function AdjacentIndex(sameColumn: bool, sourceIndex: nat, destIndex: nat): nat
  {
    if sameColumn && destIndex > sourceIndex then destIndex + 1 else destIndex
  }

  /** `itemBlocked` as the drag-update handler sets it, on the columns as they are before any removal
      (App.js:452-488); hovering over the item's own position is never blocked. */
  predicate LiveParityBlocked(sourceItems: seq<Item>, destItems: seq<Item>, sameColumn: bool,
                              sourceIndex: nat, destIndex: nat)
    requires sourceIndex < |sourceItems|
  {
    !(sameColumn && sourceIndex == destIndex)
    && ParityDenied(sourceItems[sourceIndex], destItems, AdjacentIndex(sameColumn, sourceIndex, destIndex))
  }

  /** Within a column, for a real move, the live verdict equals the single-item drop verdict, which the drop
      handler takes on the column after the item has been spliced out. */
  lemma LiveMatchesDropWithin(s: seq<Item>, sourceIndex: nat, destIndex: nat)
    requires sourceIndex < |s| && sourceIndex != destIndex
    ensures LiveParityBlocked(s, s, true, sourceIndex, destIndex)
            == ParityDenied(s[sourceIndex], RemoveAt(s, sourceIndex), destIndex)
  {
    var rest := RemoveAt(s, sourceIndex);
    if destIndex > sourceIndex && destIndex < |rest| {
      assert rest[destIndex] == s[destIndex + 1];
    }
  }
}
