/** The `App` component of src/App.js: its state hooks become the fields of a class, its handlers methods that
    update them, proved against the functions of `Session` and `Selection`. */
module KanbanApp {
  import opened Splice
  import opened Uuid
  import opened Board
  import opened Reorder
  import opened Validator
  import opened Selection
  import opened Session

  /** The decimal text of an integer, with a leading minus sign when negative. */
  function IntToString(n: int): string
  {
    if n < 0 then "-" + NatToString(-n) else NatToString(n)
  }

  /** `List${num} Item${k}`, the content of an item created by the application. */
  function ItemContent(num: nat, k: int): string
  {
    "List" + NatToString(num) + " Item" + IntToString(k)
  }

  /** Items created in one column with different positive numbers have different contents. */
  lemma ItemContentDistinct(num: nat, a: nat, b: nat)
    requires a != b
    ensures ItemContent(num, a) != ItemContent(num, b)
  {
    if ItemContent(num, a) == ItemContent(num, b) {
      var p := "List" + NatToString(num) + " Item";
      assert ItemContent(num, a)[|p|..] == NatToString(a);
      assert ItemContent(num, b)[|p|..] == NatToString(b);
      NatToStringInjective(a, b);
    }
  }

  /** The number of an item added to a column: one more than the last item's number, or 1 for an empty column. */
  function NextNumber(items: seq<Item>): int
  {
    if |items| == 0 then 1 else items[|items| - 1].number + 1
  }

  /** The items of a column are numbered 1, 2, 3, ... in order. */
  predicate NumberedInOrder(items: seq<Item>)
  {
    forall k :: 0 <= k < |items| ==> items[k].number == k + 1
  }

  /** Items as `getItems(num, ...)` makes them: numbered 1, 2, ... with matching contents, under distinct ids. */
  predicate MadeItems(items: seq<Item>, num: nat)
  {
    && NumberedInOrder(items) && UniqueIds(items)
    && forall k :: 0 <= k < |items| ==> items[k].content == ItemContent(num, k + 1)
  }

  /** Appending the next item under an id not yet used keeps the items as `getItems` makes them. */
  lemma MadeItemsExtend(items: seq<Item>, item: Item, num: nat)
    requires MadeItems(items, num)
    requires item.number == |items| + 1 && item.content == ItemContent(num, |items| + 1)
    requires item.id !in Elems(Ids(items))
    ensures MadeItems(items + [item], num)
    ensures Elems(Ids(items + [item])) == Elems(Ids(items)) + {item.id}
  {
    var longer := items + [item];
    forall j | 0 <= j < |items| ensures items[j].id != item.id {
      assert Ids(items)[j] == items[j].id;
    }
    forall j | 0 <= j < |longer| ensures longer[j].content == ItemContent(num, j + 1) {
      if j < |items| {
        assert longer[j] == items[j];
      }
    }
    assert Ids(longer) == Ids(items) + [item.id];
  }

  /** `selectedItemIds.includes(item.id)` splits a column in one pass into its selected items and the rest,
      each in column order (the `filter` with a `push` of the group moves). */
  method CollectSelection(items: seq<Item>, selected: seq<string>) returns (picked: seq<Item>, rest: seq<Item>)
    ensures picked == SelectionPart(items, selected, true)
    ensures rest == SelectionPart(items, selected, false)
  {
    picked, rest := [], [];
    var i := 0;
    while i < |items|
      invariant 0 <= i <= |items|
      invariant picked == SelectionPart(items[..i], selected, true)
      invariant rest == SelectionPart(items[..i], selected, false)
    {
      assert items[..i + 1] == items[..i] + [items[i]];
      SelectionPartSnoc(items[..i], items[i], selected, true);
      SelectionPartSnoc(items[..i], items[i], selected, false);
      if items[i].id in selected {
        picked := picked + [items[i]];
      } else {
        rest := rest + [items[i]];
      }
      i := i + 1;
    }
    assert items[..i] == items;
  }

  /** The pass that takes the grabbed item out of the selected items: the last one with its id becomes the
      dragged copy, every other item is kept in order. */
  method SplitGrabbed(picked: seq<Item>, grabbed: string) returns (dragged: Option<Item>, others: seq<Item>)
    ensures dragged == LastWithId(picked, grabbed)
    ensures others == WithoutId(picked, grabbed)
  {
    dragged, others := None, [];
    var i := 0;
    while i < |picked|
      invariant 0 <= i <= |picked|
      invariant dragged == LastWithId(picked[..i], grabbed)
      invariant others == WithoutId(picked[..i], grabbed)
    {
      assert picked[..i + 1] == picked[..i] + [picked[i]];
      LastWithIdSnoc(picked[..i], picked[i], grabbed);
      WithoutIdSnoc(picked[..i], picked[i], grabbed);
      if picked[i].id == grabbed {
        dragged := Some(picked[i]);
      } else {
        others := others + [picked[i]];
      }
      i := i + 1;
    }
    assert picked[..i] == picked;
  }

  /** The `reduce` after a group move within a column: a selected item survives only as the moved copy. */
  method StripMovedFlags(t: seq<Slot>, selected: seq<string>) returns (r: seq<Item>)
    ensures r == StripMoved(t, selected)
  {
    r := [];
    var i := 0;
    while i < |t|
      invariant 0 <= i <= |t|
      invariant r == StripMoved(t[..i], selected)
    {
      assert t[..i + 1] == t[..i] + [t[i]];
      StripMovedSnoc(t[..i], t[i], selected);
      if !(t[i].item.id in selected && !t[i].moved) {
        r := r + [t[i].item];
      }
      i := i + 1;
    }
    assert t[..i] == t;
  }

  /** The ids of `items`, in order. */
  function Ids(items: seq<Item>): (r: seq<string>)
    ensures |r| == |items| && forall k :: 0 <= k < |items| ==> r[k] == items[k].id
  {
    seq(|items|, k requires 0 <= k < |items| => items[k].id)
  }

  /** The column ids of a board, in order. */
  function ColumnIdList(columns: seq<Column<Item>>): (r: seq<string>)
    ensures |r| == |columns| && forall i :: 0 <= i < |columns| ==> r[i] == columns[i].id
  {
    seq(|columns|, i requires 0 <= i < |columns| => columns[i].id)
  }

  /** The item ids of a board, column by column. */
  function ItemIdList(columns: seq<Column<Item>>): seq<string>
  {
    if columns == [] then [] else ItemIdList(columns[..|columns| - 1]) + Ids(columns[|columns| - 1].items)
  }

  /** The id of every item on the board is in the list of item ids. */
  lemma {:induction false} ItemIdListCovers(columns: seq<Column<Item>>, x: Item)
    requires x in AllItems(columns)
    ensures x.id in ItemIdList(columns)
  {
    OnBoardInColumn(columns, x);
    var i :| 0 <= i < |columns| && x in columns[i].items;
    ItemIdListHasColumn(columns, i, x);
  }

  lemma {:induction false} ItemIdListHasColumn(columns: seq<Column<Item>>, i: nat, x: Item)
    requires i < |columns| && x in columns[i].items
    ensures x.id in ItemIdList(columns)
  {
    var last := |columns| - 1;
    if i == last {
      var k :| 0 <= k < |columns[i].items| && columns[i].items[k] == x;
      assert Ids(columns[i].items)[k] == x.id;
    } else {
      ItemIdListHasColumn(columns[..last], i, x);
    }
  }

  /** The two passes of `initializeColumns` over a restored board: every column id, and every item id column by
      column. */
  method CollectIds(columns: seq<Column<Item>>) returns (columnIds: seq<string>, itemIds: seq<string>)
    ensures columnIds == ColumnIdList(columns)
    ensures itemIds == ItemIdList(columns)
  {
    columnIds, itemIds := [], [];
    var i := 0;
    while i < |columns|
      invariant 0 <= i <= |columns|
      invariant columnIds == ColumnIdList(columns[..i])
      invariant itemIds == ItemIdList(columns[..i])
    {
      var items := columns[i].items;
      columnIds := columnIds + [columns[i].id];
      var j := 0;
      while j < |items|
        invariant 0 <= j <= |items|
        invariant itemIds == ItemIdList(columns[..i]) + Ids(items[..j])
      {
        assert Ids(items[..j + 1]) == Ids(items[..j]) + [items[j].id];
        itemIds := itemIds + [items[j].id];
        j := j + 1;
      }
      assert items[..j] == items;
      assert columns[..i + 1][..i] == columns[..i];
      i := i + 1;
    }
    assert columns[..i] == columns;
  }

  /** Appending an item with a registered id to a column whose items are all registered leaves every item on the
      board registered. */
  lemma AppendKeepsRegistered(board: seq<Column<Item>>, i: nat, item: Item, itemIds: set<string>)
    requires i < |board|
    requires forall x :: x in AllItems(board) ==> x.id in itemIds
    requires item.id in itemIds
    ensures forall x :: x in AllItems(SetItems(board, i, board[i].items + [item])) ==> x.id in itemIds
  {
    var items := board[i].items;
    AllItemsUpdate(board, i, items + [item]);
    forall x | x in AllItems(SetItems(board, i, items + [item])) ensures x.id in itemIds {
      assert x in AllItems(board) + multiset(items + [item]);
      if x in items {
        ColumnItemOnBoard(board, i, x);
      }
    }
  }

  /** Appending an item under a fresh id, one outside the registered ids every item on the board has, keeps item
      ids unique across the board. */
  lemma AppendKeepsUnique(board: seq<Column<Item>>, i: nat, item: Item, itemIds: set<string>)
    requires i < |board| && BoardUnique(board)
    requires forall x :: x in AllItems(board) ==> x.id in itemIds
    requires item.id !in itemIds
    ensures BoardUnique(SetItems(board, i, board[i].items + [item]))
  {
    AppendAddsItem(board, i, item);
    AddFreshKeepsUnique(AllItems(board), item);
  }

  /** Appending an item to a column adds exactly that item to the board. */
  lemma AppendAddsItem(board: seq<Column<Item>>, i: nat, item: Item)
    requires i < |board|
    ensures AllItems(SetItems(board, i, board[i].items + [item])) == AllItems(board) + multiset{item}
  {
    var items := board[i].items;
    var after := SetItems(board, i, items + [item]);
    AllItemsUpdate(board, i, items + [item]);
    assert multiset(items + [item]) == multiset(items) + multiset{item};
    MultisetCancel(AllItems(after), AllItems(board) + multiset{item}, multiset(items));
  }

  /** Appending the next number keeps a column numbered 1, 2, ... in order. */
  lemma AppendNextKeepsOrder(items: seq<Item>, item: Item)
    requires NumberedInOrder(items) && item.number == NextNumber(items)
    ensures NumberedInOrder(items + [item])
  {
    var longer := items + [item];
    forall k | 0 <= k < |longer| ensures longer[k].number == k + 1 {
      if k < |items| {
        assert longer[k] == items[k];
      }
    }
  }

  /** The board `setupDefaultColumns` builds: four columns with distinct ids, the first holding five items
      numbered 1 to 5 with distinct ids, the others empty. */
  predicate IsDefaultBoard(columns: seq<Column<Item>>)
  {
    && |columns| == 4
    && (forall i, j :: 0 <= i < j < 4 ==> columns[i].id != columns[j].id)
    && |columns[0].items| == 5 && MadeItems(columns[0].items, 1)
    && columns[1].items == [] && columns[2].items == [] && columns[3].items == []
  }

  /** The default board's items are those of its first column, and its column ids are the four given. */
  lemma DefaultBoardContents(first: string, second: string, third: string, fourth: string, items: seq<Item>)
    requires |items| == 5 && MadeItems(items, 1)
    requires first != second && first != third && first != fourth
    requires second != third && second != fourth && third != fourth
    ensures var columns := [Column(first, items), Column(second, []), Column(third, []), Column(fourth, [])];
            && IsDefaultBoard(columns)
            && AllItems(columns) == multiset(items)
            && ColumnIds(columns) == {first, second, third, fourth}
            && forall x :: x in AllItems(columns) ==> x.id in Elems(Ids(items))
  {
    var columns := [Column(first, items), Column(second, []), Column(third, []), Column(fourth, [])];
    var one := [Column(first, items)];
    assert one[1..] == [];
    AllItemsAppend(one, Column(second, []));
    AllItemsAppend(one + [Column(second, [])], Column(third, []));
    AllItemsAppend(one + [Column(second, []), Column(third, [])], Column(fourth, []));
    assert columns == one + [Column(second, []), Column(third, [])] + [Column(fourth, [])];
    forall x: Item | x in AllItems(columns) ensures x.id in Elems(Ids(items)) {
      var k :| 0 <= k < |items| && items[k] == x;
      assert Ids(items)[k] == x.id;
    }
    assert columns[0].id == first && columns[1].id == second && columns[2].id == third && columns[3].id == fourth;
  }

  class App {
    var columns: seq<Column<Item>>
    var selectedItemIds: seq<string>
    /** `null` until the first click. */
    var currentColumn: Option<string>
    /** The id of the item being dragged; `''` and `null` are both `None`. */
    var currentDraggingId: Option<string>
    var itemBlocked: bool
    var containerBlocked: bool
    /** The id sets of src/utils/uuid.js. */
    const registry: Registry

    function ViewOf(): View
      reads this
    {
      View(columns, selectedItemIds, itemBlocked, containerBlocked)
    }

    function SelectionOf(): SelectionState
      reads this
    {
      SelectionState(currentColumn, selectedItemIds)
    }

    /** Every id on the board is registered, so no generated id can collide with it. */
    ghost predicate Registered()
      reads this, registry
    {
      && ColumnIds(columns) <= registry.columnIds
      && forall x :: x in AllItems(columns) ==> x.id in registry.itemIds
    }

    constructor (registry: Registry)
      ensures this.registry == registry
      ensures columns == [] && selectedItemIds == [] && currentColumn == None && currentDraggingId == None
      ensures !itemBlocked && !containerBlocked
      ensures Registered()
    {
      this.registry := registry;
      columns, selectedItemIds := [], [];
      currentColumn, currentDraggingId := None, None;
      itemBlocked, containerBlocked := false, false;
    }

    /** `onDragStart`: both warnings are cleared, and the dragged item is recorded when there is a source. */
    method OnDragStart(start: DragPayload)
      modifies this
      ensures !itemBlocked && !containerBlocked
      ensures currentDraggingId == if start.source.Some? then Some(start.draggableId) else old(currentDraggingId)
      ensures columns == old(columns) && SelectionOf() == old(SelectionOf())
    {
      containerBlocked := false;
      itemBlocked := false;
      if start.source.None? {
        return;
      }
      currentDraggingId := Some(start.draggableId);
    }

    /** `onDragUpdate`: recomputes the two warnings for the hovered position. */
    method OnDragUpdate(r: DragPayload)
      requires UpdateConsistent(columns, r)
      modifies this
      ensures ViewOf() == DragUpdate(old(ViewOf()), r)
      ensures currentDraggingId == old(currentDraggingId) && currentColumn == old(currentColumn)
    {
      if r.destination.None? || r.source.None? {
        return;
      }
      var src, dst := r.source.value, r.destination.value;
      if |columns| >= 3 {
        if src.droppableId == columns[0].id && dst.droppableId == columns[2].id {
          containerBlocked := true;
        } else {
          containerBlocked := false;
        }
      }
      var sourceItems := columns[FindColumn(columns, src.droppableId).value].items;
      var destItems := columns[FindColumn(columns, dst.droppableId).value].items;
      var dragged := sourceItems[src.index];
      if src.droppableId == dst.droppableId {
        if ParityDenied(dragged, destItems, AdjacentIndex(true, src.index, dst.index)) {
          itemBlocked := true;
        } else {
          itemBlocked := false;
        }
        if src.index == dst.index {
          itemBlocked := false;
        }
      } else {
        if ParityDenied(dragged, destItems, dst.index) {
          itemBlocked := true;
        } else {
          itemBlocked := false;
        }
      }
    }

    /** `onDragEnd`: applies the drop to the board, or refuses it and leaves the board as it was. */
    method OnDragEnd(r: DragPayload) returns (outcome: Outcome)
      requires PayloadConsistent(columns, selectedItemIds, r)
      modifies this
      ensures Drop(ViewOf(), outcome) == DragEnd(old(ViewOf()), r)
      ensures currentDraggingId == None && currentColumn == old(currentColumn)
      ensures old(Registered()) ==> Registered()
      ensures old(BoardUnique(columns)) ==> BoardUnique(columns) && AllItems(columns) == old(AllItems(columns))
    {
      ghost var before := ViewOf();
      DragEndInventsNothing(before, r);
      if BoardUnique(columns) {
        DragEndKeepsBoardUnique(before, r);
      }
      currentDraggingId := None;
      outcome := RouteDrop(r);
    }

    /** The branches of `onDragEnd`: a cancelled drag, a drop inside one column, or a move between two. */
    method RouteDrop(r: DragPayload) returns (outcome: Outcome)
      requires PayloadConsistent(columns, selectedItemIds, r)
      modifies this
      ensures Drop(ViewOf(), outcome) == DragEnd(old(ViewOf()), r)
      ensures currentDraggingId == old(currentDraggingId) && currentColumn == old(currentColumn)
    {
      if r.destination.None? || r.source.None? {
        return Cancelled;
      }
      var src, dst := r.source.value, r.destination.value;
      if src.droppableId == dst.droppableId {
        var found := FindColumn(columns, src.droppableId);
        if found.None? {
          return SourceColumnMissing;
        }
        var ci := found.value;
        if |selectedItemIds| > 1 {
          GrabbedPresent(columns[ci].items, selectedItemIds, src.index, r.draggableId);
          outcome := GroupDropWithin(ci, src.index, dst.index, r.draggableId);
        } else {
          outcome := SingleDropWithin(ci, src.index, dst.index, r.draggableId);
        }
      } else {
        if PairDenied(columns, src.droppableId, dst.droppableId) {
          containerBlocked := false;
          return PairVetoed;
        }
        var sourceFound := FindColumn(columns, src.droppableId);
        if sourceFound.None? {
          return SourceColumnMissing;
        }
        var destFound := FindColumn(columns, dst.droppableId);
        if destFound.None? {
          return DestColumnMissing;
        }
        var ci, di := sourceFound.value, destFound.value;
        if |selectedItemIds| > 1 {
          GrabbedPresent(columns[ci].items, selectedItemIds, src.index, r.draggableId);
          outcome := GroupDropAcross(ci, di, src.index, dst.index, r.draggableId);
        } else {
          outcome := SingleDropAcross(ci, di, src.index, dst.index, r.draggableId);
        }
      }
    }

    /** A group drop inside the column at `ci`: the selected items, grabbed one first, are spliced in as moved
        copies at `finalDestIndex` and the originals are then dropped. */
    method GroupDropWithin(ci: nat, sourceIndex: nat, destIndex: nat, grabbed: string) returns (outcome: Outcome)
      requires ci < |columns| && sourceIndex < |columns[ci].items| && |selectedItemIds| > 1
      requires HasGrabbed(columns[ci].items, selectedItemIds, grabbed)
      modifies this
      ensures Drop(ViewOf(), outcome) == DropWithin(old(ViewOf()), ci, sourceIndex, destIndex, grabbed)
      ensures currentDraggingId == old(currentDraggingId) && currentColumn == old(currentColumn)
    {
      ghost var v := ViewOf();
      var sourceItems := columns[ci].items;
      var finalDestIndex := FinalDestIndex(sourceIndex, destIndex);
      var picked, filtered := CollectSelection(sourceItems, selectedItemIds);
      var dragged, others := SplitGrabbed(picked, grabbed);
      var block := [dragged.value] + others;
      assert block == GroupBlock(sourceItems, selectedItemIds, grabbed);
      if ParityDenied(dragged.value, sourceItems, finalDestIndex) {
        itemBlocked := false;
        selectedItemIds := [];
        return ParityVetoed;
      }
      var spliced := InsertAt(Tag(sourceItems, false), finalDestIndex, Tag(block, true));
      var reduced := StripMovedFlags(spliced, selectedItemIds);
      assert reduced == GroupMoveWithin(sourceItems, selectedItemIds, grabbed, sourceIndex, destIndex);
      columns := SetItems(columns, ci, reduced);
      selectedItemIds := [];
      outcome := Moved;
    }

    /** A single drop inside the column at `ci`: the item is spliced out, and either spliced back where it was
        (parity veto) or in at the drop index. */
    method SingleDropWithin(ci: nat, sourceIndex: nat, destIndex: nat, grabbed: string) returns (outcome: Outcome)
      requires ci < |columns| && sourceIndex < |columns[ci].items| && |selectedItemIds| <= 1
      modifies this
      ensures Drop(ViewOf(), outcome) == DropWithin(old(ViewOf()), ci, sourceIndex, destIndex, grabbed)
      ensures currentDraggingId == old(currentDraggingId) && currentColumn == old(currentColumn)
    {
      ghost var v := ViewOf();
      DropWithinSingle(v, ci, sourceIndex, destIndex, grabbed);
      var sourceItems := columns[ci].items;
      var moving := sourceItems[sourceIndex];
      var rest := RemoveAt(sourceItems, sourceIndex);
      columns := SetItems(columns, ci, rest);
      if ParityDenied(moving, rest, destIndex) {
        itemBlocked := false;
        columns := SetItems(columns, ci, InsertAt(rest, sourceIndex, [moving]));
        assert columns == v.columns by {
          RestoreAfterRemove(sourceItems, sourceIndex);
          SetItemsTwice(v.columns, ci, rest, sourceItems);
        }
        return ParityVetoed;
      }
      columns := SetItems(columns, ci, InsertAt(rest, destIndex, [moving]));
      assert columns == SetItems(v.columns, ci, Reposition(sourceItems, sourceIndex, destIndex)) by {
        SetItemsTwice(v.columns, ci, rest, InsertAt(rest, destIndex, [moving]));
      }
      selectedItemIds := [];
      outcome := Moved;
    }

    /** A group drop from the column at `ci` into the column at `di`: the source keeps its unselected items and
        the block goes into a copy of the destination at `finalDestIndex`. */
    method GroupDropAcross(ci: nat, di: nat, sourceIndex: nat, destIndex: nat, grabbed: string)
      returns (outcome: Outcome)
      requires ci < |columns| && di < |columns| && ci != di && sourceIndex < |columns[ci].items|
      requires |selectedItemIds| > 1 && HasGrabbed(columns[ci].items, selectedItemIds, grabbed)
      modifies this
      ensures Drop(ViewOf(), outcome) == DropAcross(old(ViewOf()), ci, di, sourceIndex, destIndex, grabbed)
      ensures currentDraggingId == old(currentDraggingId) && currentColumn == old(currentColumn)
    {
      var sourceItems, destItems := columns[ci].items, columns[di].items;
      var finalDestIndex := FinalDestIndex(sourceIndex, destIndex);
      var picked, filtered := CollectSelection(sourceItems, selectedItemIds);
      var dragged, others := SplitGrabbed(picked, grabbed);
      var block := [dragged.value] + others;
      assert block == GroupBlock(sourceItems, selectedItemIds, grabbed);
      if ParityDenied(dragged.value, destItems, destIndex) {
        itemBlocked := false;
        selectedItemIds := [];
        return ParityVetoed;
      }
      columns := SetItems(SetItems(columns, ci, filtered), di, InsertAt(destItems, finalDestIndex, block));
      selectedItemIds := [];
      outcome := Moved;
    }

    /** A single drop from the column at `ci` into the column at `di`: the item is spliced out of the source and
        either spliced back (parity veto) or into the destination at the drop index. */
    method SingleDropAcross(ci: nat, di: nat, sourceIndex: nat, destIndex: nat, grabbed: string)
      returns (outcome: Outcome)
      requires ci < |columns| && di < |columns| && ci != di && sourceIndex < |columns[ci].items|
      requires |selectedItemIds| <= 1
      modifies this
      ensures Drop(ViewOf(), outcome) == DropAcross(old(ViewOf()), ci, di, sourceIndex, destIndex, grabbed)
      ensures currentDraggingId == old(currentDraggingId) && currentColumn == old(currentColumn)
    {
      ghost var v := ViewOf();
      DropAcrossSingle(v, ci, di, sourceIndex, destIndex, grabbed);
      var sourceItems, destItems := columns[ci].items, columns[di].items;
      var moving := sourceItems[sourceIndex];
      var rest := RemoveAt(sourceItems, sourceIndex);
      columns := SetItems(columns, ci, rest);
      if ParityDenied(moving, destItems, destIndex) {
        columns := SetItems(columns, ci, InsertAt(rest, sourceIndex, [moving]));
        assert columns == v.columns by {
          RestoreAfterRemove(sourceItems, sourceIndex);
          SetItemsTwice(v.columns, ci, rest, sourceItems);
        }
        selectedItemIds := [];
        return ParityVetoed;
      }
      assert columns[di].items == destItems;
      columns := SetItems(columns, di, InsertAt(destItems, destIndex, [moving]));
      selectedItemIds := [];
      outcome := Moved;
    }

    /** `onClickItem`. */
    method OnClickItem(columnId: string, itemId: string)
      modifies this
      ensures SelectionOf() == ClickItem(old(SelectionOf()), columnId, itemId)
      ensures columns == old(columns) && currentDraggingId == old(currentDraggingId)
      ensures itemBlocked == old(itemBlocked) && containerBlocked == old(containerBlocked)
    {
      if currentColumn != Some(columnId) {
        currentColumn := Some(columnId);
        selectedItemIds := [itemId];
      } else if itemId !in selectedItemIds {
        selectedItemIds := selectedItemIds + [itemId];
      } else {
        selectedItemIds := Without(selectedItemIds, itemId);
      }
    }

    /** `getItem(num, count)`: a new item numbered `count + 1` under a freshly registered id. */
    method GetItem(num: nat, count: int) returns (item: Item)
      requires CanIssue(registry.itemIds, ItemPrefix)
      modifies registry
      ensures item.number == count + 1 && item.content == ItemContent(num, count + 1)
      ensures item.id !in old(registry.itemIds) && registry.itemIds == old(registry.itemIds) + {item.id}
      ensures registry.columnIds == old(registry.columnIds)
    {
      var id := registry.GenerateColumnItemId();
      item := Item(id, ItemContent(num, count + 1), count + 1);
    }

    /** `getItems(num, count)`: `count` new items numbered 1 to `count`, each under a fresh id. */
    method GetItems(num: nat, count: nat) returns (items: seq<Item>)
      requires |registry.itemIds| + count <= SuffixRange
      modifies registry
      ensures |items| == count && MadeItems(items, num)
      ensures forall k :: 0 <= k < count ==> items[k].id !in old(registry.itemIds)
      ensures registry.itemIds == old(registry.itemIds) + Elems(Ids(items))
      ensures registry.columnIds == old(registry.columnIds)
    {
      items := [];
      var k := 0;
      while k < count
        invariant 0 <= k <= count && |items| == k
        invariant registry.itemIds == old(registry.itemIds) + Elems(Ids(items))
        invariant |registry.itemIds| == |old(registry.itemIds)| + k
        invariant MadeItems(items, num)
        invariant forall j :: 0 <= j < k ==> items[j].id !in old(registry.itemIds)
        invariant registry.columnIds == old(registry.columnIds)
      {
        CanIssueWhenRoom(registry.itemIds, ItemPrefix);
        var item := GetItem(num, k);
        MadeItemsExtend(items, item, num);
        items := items + [item];
        k := k + 1;
      }
    }

    /** The "+ Add Item" button of the column at `columnIndex`: appends an item numbered one past the last. A
        column numbered 1, 2, ... in order stays so. */
    method AddItemButton(columnIndex: nat)
      requires columnIndex < |columns|
      requires CanIssue(registry.itemIds, ItemPrefix)
      modifies this, registry
      ensures var before := old(columns[columnIndex].items);
              && |columns| == |old(columns)| && columns[columnIndex].id == old(columns[columnIndex].id)
              && |columns[columnIndex].items| == |before| + 1 && columns[columnIndex].items[..|before|] == before
              && columns[columnIndex].items[|before|].number == NextNumber(before)
              && columns[columnIndex].items[|before|].content == ItemContent(columnIndex + 1, NextNumber(before))
              && columns[columnIndex].items[|before|].id !in old(registry.itemIds)
              && (NumberedInOrder(before) ==> NumberedInOrder(columns[columnIndex].items))
      ensures forall j :: 0 <= j < |columns| && j != columnIndex ==> columns[j] == old(columns[j])
      ensures registry.itemIds == old(registry.itemIds) + {columns[columnIndex].items[|old(columns[columnIndex].items)|].id}
      ensures SelectionOf() == old(SelectionOf()) && registry.columnIds == old(registry.columnIds)
      ensures itemBlocked == old(itemBlocked) && containerBlocked == old(containerBlocked)
      ensures currentDraggingId == old(currentDraggingId)
      ensures old(Registered()) ==> Registered()
      ensures old(Registered()) && old(BoardUnique(columns)) ==> BoardUnique(columns)
    {
      var items := columns[columnIndex].items;
      var item;
      if |items| == 0 {
        item := GetItem(columnIndex + 1, 0);
      } else {
        item := GetItem(columnIndex + 1, items[|items| - 1].number);
      }
      var longer := items + [item];
      assert longer[..|items|] == items && longer[|items|] == item;
      ghost var board := columns;
      ColumnIdsUpdate(board, columnIndex, longer);
      if old(Registered()) {
        AppendKeepsRegistered(board, columnIndex, item, registry.itemIds);
        if BoardUnique(board) {
          AppendKeepsUnique(board, columnIndex, item, old(registry.itemIds));
        }
      }
      if NumberedInOrder(items) {
        AppendNextKeepsOrder(items, item);
      }
      columns := SetItems(columns, columnIndex, longer);
      assert columns[columnIndex].items == longer;
    }

    /** The "+ Add Column" button: appends an empty column under a fresh id. */
    method AddColumn()
      requires CanIssue(registry.columnIds, ColumnPrefix)
      modifies this, registry
      ensures |columns| == |old(columns)| + 1 && columns[..|old(columns)|] == old(columns)
      ensures columns[|old(columns)|].items == [] && columns[|old(columns)|].id !in old(registry.columnIds)
      ensures registry.columnIds == old(registry.columnIds) + {columns[|old(columns)|].id}
      ensures registry.itemIds == old(registry.itemIds) && SelectionOf() == old(SelectionOf())
      ensures old(Registered()) ==> Registered() && columns[|old(columns)|].id !in ColumnIds(old(columns))
      ensures itemBlocked == old(itemBlocked) && containerBlocked == old(containerBlocked)
      ensures currentDraggingId == old(currentDraggingId)
      ensures AllItems(columns) == old(AllItems(columns)) && (BoardUnique(columns) <==> old(BoardUnique(columns)))
    {
      var id := registry.GenerateColumnId();
      var column := Column(id, []);
      AllItemsAppend(columns, column);
      assert ColumnIds(columns + [column]) == ColumnIds(columns) + {id} by {
        var added := columns + [column];
        assert forall i :: 0 <= i < |columns| ==> added[i] == columns[i];
        assert added[|columns|] == column;
      }
      columns := columns + [column];
    }

    /** `setupDefaultColumns`: clears both id sets and builds the default board under fresh ids. */
    method SetupDefaultColumns()
      modifies this, registry
      ensures IsDefaultBoard(columns) && BoardUnique(columns)
      ensures registry.columnIds == ColumnIds(columns)
      ensures registry.itemIds == Elems(Ids(columns[0].items))
      ensures Registered()
      ensures SelectionOf() == old(SelectionOf())
      ensures itemBlocked == old(itemBlocked) && containerBlocked == old(containerBlocked)
      ensures currentDraggingId == old(currentDraggingId)
    {
      registry.ResetAllSets();
      columns := BuildDefaultBoard();
    }

    /** The board of `setupDefaultColumns`, drawn from cleared id sets: four column ids, then five items for the
        first column. */
    method BuildDefaultBoard() returns (board: seq<Column<Item>>)
      requires registry.columnIds == {} && registry.itemIds == {}
      modifies registry
      ensures IsDefaultBoard(board) && BoardUnique(board)
      ensures registry.columnIds == ColumnIds(board)
      ensures registry.itemIds == Elems(Ids(board[0].items))
      ensures forall x :: x in AllItems(board) ==> x.id in registry.itemIds
    {
      CanIssueWhenRoom(registry.columnIds, ColumnPrefix);
      var first := registry.GenerateColumnId();
      var items := GetItems(1, 5);
      var second, third, fourth := TrailingColumnIds(first);
      DefaultBoardContents(first, second, third, fourth, items);
      UniqueIdsBag(items);
      board := [Column(first, items), Column(second, []), Column(third, []), Column(fourth, [])];
    }

    /** The ids of the three empty default columns, drawn after the first column's id. */
    method TrailingColumnIds(first: string) returns (second: string, third: string, fourth: string)
      requires registry.columnIds == {first}
      modifies registry
      ensures registry.columnIds == {first, second, third, fourth} && registry.itemIds == old(registry.itemIds)
      ensures first != second && first != third && first != fourth
      ensures second != third && second != fourth && third != fourth
    {
      CanIssueWhenRoom(registry.columnIds, ColumnPrefix);
      second := registry.GenerateColumnId();
      CanIssueWhenRoom(registry.columnIds, ColumnPrefix);
      third := registry.GenerateColumnId();
      CanIssueWhenRoom(registry.columnIds, ColumnPrefix);
      fourth := registry.GenerateColumnId();
    }

    /** `initializeColumns`: restores a saved board and registers all of its ids, or, when there is nothing
        saved or it cannot be read (`None`), falls back to the default board. */
    method InitializeColumns(saved: Option<seq<Column<Item>>>)
      modifies this, registry
      ensures saved.Some? ==> && columns == saved.value
                              && registry.columnIds == old(registry.columnIds) + Elems(ColumnIdList(saved.value))
                              && registry.itemIds == old(registry.itemIds) + Elems(ItemIdList(saved.value))
      ensures saved.None? ==> IsDefaultBoard(columns) && registry.columnIds == ColumnIds(columns)
      ensures saved.None? ==> registry.itemIds == Elems(Ids(columns[0].items)) && BoardUnique(columns)
      ensures Registered()
      ensures SelectionOf() == old(SelectionOf())
      ensures itemBlocked == old(itemBlocked) && containerBlocked == old(containerBlocked)
      ensures currentDraggingId == old(currentDraggingId)
    {
      if saved.None? {
        SetupDefaultColumns();
        return;
      }
      var restored := saved.value;
      var columnIds, itemIds := CollectIds(restored);
      registry.InsertColumnIds(columnIds);
      registry.InsertColumnItemIds(itemIds);
      columns := restored;
      forall x | x in AllItems(columns) ensures x.id in registry.itemIds {
        ItemIdListCovers(columns, x);
      }
      forall id | id in ColumnIds(columns) ensures id in registry.columnIds {
        var i :| 0 <= i < |columns| && columns[i].id == id;
        assert ColumnIdList(columns)[i] == id;
      }
    }
  }
}
