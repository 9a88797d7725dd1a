/** Multi-select (src/App.js:492-505 and the drag-disable rule at line 617): the selection is a list of item ids
    that belongs to one column at a time. */
module Selection {
  import opened Splice

  /** `currentColumn` (null until the first click) and `selectedItemIds`. */
  datatype SelectionState = SelectionState(currentColumn: Option<string>, selectedItemIds: seq<string>)

  predicate NoDuplicates(ids: seq<string>)
  {
    forall i, j :: 0 <= i < j < |ids| ==> ids[i] != ids[j]
  }

  /** `ids.filter(x => x !== id)`: every occurrence of `id` goes, the rest keep their order. */
  function Without(ids: seq<string>, id: string): (r: seq<string>)
    ensures forall x :: x in r <==> x in ids && x != id
    ensures NoDuplicates(ids) ==> NoDuplicates(r)
  {
    if ids == [] then []
    else if ids[0] == id then Without(ids[1..], id)
    else
      var rest := Without(ids[1..], id);
      assert NoDuplicates(ids) ==> NoDuplicates(ids[1..]) && ids[0] !in ids[1..];
      assert NoDuplicates(ids) ==> ids[0] !in rest;
      [ids[0]] + rest
  }

  /** A click on item `itemId` of column `columnId`. */
  function ClickItem(st: SelectionState, columnId: string, itemId: string): SelectionState
  {
    if st.currentColumn != Some(columnId) then SelectionState(Some(columnId), [itemId])
    else if itemId !in st.selectedItemIds then st.(selectedItemIds := st.selectedItemIds + [itemId])
    else st.(selectedItemIds := Without(st.selectedItemIds, itemId))
  }

  /** A click in another column starts a new selection of just that item there; a click in the current column
      toggles the item and leaves every other id as it was; a selection without duplicates keeps none. */
  lemma ClickItemSpec(st: SelectionState, columnId: string, itemId: string)
    ensures var r := ClickItem(st, columnId, itemId);
            && (st.currentColumn != Some(columnId) ==> r == SelectionState(Some(columnId), [itemId]))
            && (st.currentColumn == Some(columnId) ==>
                  && r.currentColumn == st.currentColumn
                  && (itemId in r.selectedItemIds <==> itemId !in st.selectedItemIds)
                  && (forall x :: x != itemId ==> (x in r.selectedItemIds <==> x in st.selectedItemIds)))
            && (NoDuplicates(st.selectedItemIds) ==> NoDuplicates(r.selectedItemIds))
  {
  }

  /** `isDragDisabled`: while a selection exists only its members can be dragged. */
  predicate DragDisabled(selectedItemIds: seq<string>, itemId: string)
  {
    itemId !in selectedItemIds && |selectedItemIds| != 0
  }
}
