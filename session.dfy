/** What the drag handlers of src/App.js do to the component state, as functions of the state before the event:
    `DragEnd` for `onDragEnd` (lines 178-400) and `DragUpdate` for `onDragUpdate` (lines 423-490). */
module Session {
  import opened Splice
  import opened Board
  import opened Reorder
  import opened Validator
  import opened Selection

  /** The state the drop and drag-update handlers read and write. */
  datatype View = View(columns: seq<Column<Item>>, selectedItemIds: seq<string>, itemBlocked: bool,
                       containerBlocked: bool)

  datatype Drop = Drop(view: View, outcome: Outcome)

  /** What react-beautiful-dnd and `isDragDisabled` guarantee about a drop: when its source column exists, the
      source index lies inside it and holds the grabbed item, and the grabbed item was draggable. */
  predicate PayloadConsistent(columns: seq<Column<Item>>, selectedItemIds: seq<string>, r: DragPayload)
  {
    && !DragDisabled(selectedItemIds, r.draggableId)
    && (r.source.Some? ==>
          match FindColumn(columns, r.source.value.droppableId)
          case None => true
          case Some(ci) => r.source.value.index < |columns[ci].items|
                           && columns[ci].items[r.source.value.index].id == r.draggableId)
  }

  /** A drop inside the column at `ci` (App.js:197-288). */
  function DropWithin(v: View, ci: nat, sourceIndex: nat, destIndex: nat, grabbed: string): Drop
    requires ci < |v.columns| && sourceIndex < |v.columns[ci].items|
    requires |v.selectedItemIds| > 1 ==> HasGrabbed(v.columns[ci].items, v.selectedItemIds, grabbed)
  {
    var s := v.columns[ci].items;
    if |v.selectedItemIds| > 1 then
      var block := GroupBlock(s, v.selectedItemIds, grabbed);
      if ParityDenied(block[0], s, FinalDestIndex(sourceIndex, destIndex)) then
        Drop(v.(itemBlocked := false, selectedItemIds := []), ParityVetoed)
      else
        var moved := GroupMoveWithin(s, v.selectedItemIds, grabbed, sourceIndex, destIndex);
        Drop(v.(columns := SetItems(v.columns, ci, moved), selectedItemIds := []), Moved)
    else if ParityDenied(s[sourceIndex], RemoveAt(s, sourceIndex), destIndex) then
      Drop(v.(itemBlocked := false), ParityVetoed)
    else
      Drop(v.(columns := SetItems(v.columns, ci, Reposition(s, sourceIndex, destIndex)), selectedItemIds := []), Moved)
  }

  /** The single-item case of `DropWithin`, for callers that splice step by step. */
  lemma DropWithinSingle(v: View, ci: nat, sourceIndex: nat, destIndex: nat, grabbed: string)
    requires ci < |v.columns| && sourceIndex < |v.columns[ci].items| && |v.selectedItemIds| <= 1
    ensures var s := v.columns[ci].items;
            DropWithin(v, ci, sourceIndex, destIndex, grabbed)
            == if ParityDenied(s[sourceIndex], RemoveAt(s, sourceIndex), destIndex)
               then Drop(v.(itemBlocked := false), ParityVetoed)
               else Drop(v.(columns := SetItems(v.columns, ci, Reposition(s, sourceIndex, destIndex)),
                            selectedItemIds := []), Moved)
  {
  }

  /** The single-item case of `DropAcross`. */
  lemma DropAcrossSingle(v: View, ci: nat, di: nat, sourceIndex: nat, destIndex: nat, grabbed: string)
    requires ci < |v.columns| && di < |v.columns| && ci != di && sourceIndex < |v.columns[ci].items|
    requires |v.selectedItemIds| <= 1
    ensures var s, d := v.columns[ci].items, v.columns[di].items;
            DropAcross(v, ci, di, sourceIndex, destIndex, grabbed)
            == if ParityDenied(s[sourceIndex], d, destIndex)
               then Drop(v.(selectedItemIds := []), ParityVetoed)
               else Drop(v.(columns := SetItems(SetItems(v.columns, ci, RemoveAt(s, sourceIndex)), di,
                                                InsertAt(d, destIndex, [s[sourceIndex]])),
                            selectedItemIds := []), Moved)
  {
  }

  /** A drop from the column at `ci` into the column at `di` (App.js:305-398). */
  function DropAcross(v: View, ci: nat, di: nat, sourceIndex: nat, destIndex: nat, grabbed: string): Drop
    requires ci < |v.columns| && di < |v.columns| && ci != di && sourceIndex < |v.columns[ci].items|
    requires |v.selectedItemIds| > 1 ==> HasGrabbed(v.columns[ci].items, v.selectedItemIds, grabbed)
  {
    var s, d := v.columns[ci].items, v.columns[di].items;
    if |v.selectedItemIds| > 1 then
      var block := GroupBlock(s, v.selectedItemIds, grabbed);
      if ParityDenied(block[0], d, destIndex) then
        Drop(v.(itemBlocked := false, selectedItemIds := []), ParityVetoed)
      else
        var source := GroupMoveAcrossSource(s, v.selectedItemIds);
        var dest := GroupMoveAcrossDest(s, d, v.selectedItemIds, grabbed, sourceIndex, destIndex);
        Drop(v.(columns := SetItems(SetItems(v.columns, ci, source), di, dest), selectedItemIds := []), Moved)
    else if ParityDenied(s[sourceIndex], d, destIndex) then
      Drop(v.(selectedItemIds := []), ParityVetoed)
    else
      var source := RemoveAt(s, sourceIndex);
      var dest := InsertAt(d, destIndex, [s[sourceIndex]]);
      Drop(v.(columns := SetItems(SetItems(v.columns, ci, source), di, dest), selectedItemIds := []), Moved)
  }

  /** `onDragEnd`. */
  function DragEnd(v: View, r: DragPayload): Drop
    requires PayloadConsistent(v.columns, v.selectedItemIds, r)
  {
    if r.destination.None? || r.source.None? then Drop(v, Cancelled)
    else
      var src, dst := r.source.value, r.destination.value;
      if src.droppableId == dst.droppableId then
        match FindColumn(v.columns, src.droppableId)
        case None => Drop(v, SourceColumnMissing)
        case Some(ci) =>
          assert |v.selectedItemIds| > 1 ==> HasGrabbed(v.columns[ci].items, v.selectedItemIds, r.draggableId) by {
            if |v.selectedItemIds| > 1 {
              GrabbedPresent(v.columns[ci].items, v.selectedItemIds, src.index, r.draggableId);
            }
          }
          DropWithin(v, ci, src.index, dst.index, r.draggableId)
      else if PairDenied(v.columns, src.droppableId, dst.droppableId) then
        Drop(v.(containerBlocked := false), PairVetoed)
      else
        match FindColumn(v.columns, src.droppableId)
        case None => Drop(v, SourceColumnMissing)
        case Some(ci) =>
          match FindColumn(v.columns, dst.droppableId)
          case None => Drop(v, DestColumnMissing)
          case Some(di) =>
            assert |v.selectedItemIds| > 1 ==> HasGrabbed(v.columns[ci].items, v.selectedItemIds, r.draggableId) by {
              if |v.selectedItemIds| > 1 {
                GrabbedPresent(v.columns[ci].items, v.selectedItemIds, src.index, r.draggableId);
              }
            }
            DropAcross(v, ci, di, src.index, dst.index, r.draggableId)
  }

  /** The drag-update handler reads both columns and the dragged item without checking them. */
  predicate UpdateConsistent(columns: seq<Column<Item>>, r: DragPayload)
  {
    r.source.Some? && r.destination.Some? ==>
      && FindColumn(columns, r.destination.value.droppableId).Some?
      && match FindColumn(columns, r.source.value.droppableId)
         case None => false
         case Some(ci) => r.source.value.index < |columns[ci].items|
  }

  /** `onDragUpdate`: republishes the two signals and changes nothing else. `containerBlocked` is rewritten only
      on a board of three or more columns. */
  function DragUpdate(v: View, r: DragPayload): View
    requires UpdateConsistent(v.columns, r)
  {
    if r.destination.None? || r.source.None? then v
    else
      var src, dst := r.source.value, r.destination.value;
      var s := v.columns[FindColumn(v.columns, src.droppableId).value].items;
      var d := v.columns[FindColumn(v.columns, dst.droppableId).value].items;
      v.(containerBlocked := if |v.columns| >= 3 then PairDenied(v.columns, src.droppableId, dst.droppableId)
                             else v.containerBlocked,
         itemBlocked := LiveParityBlocked(s, d, src.droppableId == dst.droppableId, src.index, dst.index))
  }

  /** Within a column, only a committed move changes the board; a veto at most clears the selection and
      `itemBlocked`. */
  lemma DropWithinVetoKeepsBoard(v: View, ci: nat, sourceIndex: nat, destIndex: nat, grabbed: string)
    requires ci < |v.columns| && sourceIndex < |v.columns[ci].items|
    requires |v.selectedItemIds| > 1 ==> HasGrabbed(v.columns[ci].items, v.selectedItemIds, grabbed)
    ensures var e := DropWithin(v, ci, sourceIndex, destIndex, grabbed);
            && e.outcome in {ParityVetoed, Moved}
            && (e.outcome == ParityVetoed ==> e.view.columns == v.columns && e.view.containerBlocked == v.containerBlocked
                                              && !e.view.itemBlocked)
  {
  }

  /** Across columns, likewise. */
  lemma DropAcrossVetoKeepsBoard(v: View, ci: nat, di: nat, sourceIndex: nat, destIndex: nat, grabbed: string)
    requires ci < |v.columns| && di < |v.columns| && ci != di && sourceIndex < |v.columns[ci].items|
    requires |v.selectedItemIds| > 1 ==> HasGrabbed(v.columns[ci].items, v.selectedItemIds, grabbed)
    ensures var e := DropAcross(v, ci, di, sourceIndex, destIndex, grabbed);
            && e.outcome in {ParityVetoed, Moved}
            && (e.outcome == ParityVetoed ==> e.view.columns == v.columns && e.view.containerBlocked == v.containerBlocked
                                              && e.view.selectedItemIds == [])
  {
  }

  /** Each early return of the drop handler leaves the board as it was: a cancelled drag or a missing column
      change nothing, a column-pair veto only clears `containerBlocked`, and a parity veto restores what it
      spliced out. Only a committed move changes the columns. */
  lemma DragEndVetoKeepsBoard(v: View, r: DragPayload)
    requires PayloadConsistent(v.columns, v.selectedItemIds, r)
    ensures var e := DragEnd(v, r);
            && (e.outcome in {Cancelled, SourceColumnMissing, DestColumnMissing} ==> e.view == v)
            && (e.outcome == PairVetoed ==> e.view == v.(containerBlocked := false))
            && (e.outcome != Moved ==> e.view.columns == v.columns)
  {
    if r.destination.Some? && r.source.Some? {
      var src, dst := r.source.value, r.destination.value;
      var sel, g := v.selectedItemIds, r.draggableId;
      if src.droppableId == dst.droppableId {
        if FindColumn(v.columns, src.droppableId).Some? {
          var ci := FindColumn(v.columns, src.droppableId).value;
          if |sel| > 1 { GrabbedPresent(v.columns[ci].items, sel, src.index, g); }
          DropWithinVetoKeepsBoard(v, ci, src.index, dst.index, g);
        }
      } else if !PairDenied(v.columns, src.droppableId, dst.droppableId) {
        if FindColumn(v.columns, src.droppableId).Some? && FindColumn(v.columns, dst.droppableId).Some? {
          var ci, di := FindColumn(v.columns, src.droppableId).value, FindColumn(v.columns, dst.droppableId).value;
          if |sel| > 1 { GrabbedPresent(v.columns[ci].items, sel, src.index, g); }
          DropAcrossVetoKeepsBoard(v, ci, di, src.index, dst.index, g);
        }
      }
    }
  }

  /** The column-pair rule holds unconditionally: with three or more columns, any drop (single or group, whatever
      the items) from the first column into the third is refused before anything changes. */
  lemma PairRuleRefusesFirstToThird(v: View, r: DragPayload)
    requires PayloadConsistent(v.columns, v.selectedItemIds, r)
    requires |v.columns| >= 3 && v.columns[0].id != v.columns[2].id
    requires r.source.Some? && r.source.value.droppableId == v.columns[0].id
    requires r.destination.Some? && r.destination.value.droppableId == v.columns[2].id
    ensures DragEnd(v, r) == Drop(v.(containerBlocked := false), PairVetoed)
  {
  }

  /** Every column of the board holds items with distinct ids. */
  predicate ColumnsUnique(columns: seq<Column<Item>>)
  {
    forall i :: 0 <= i < |columns| ==> UniqueIds(columns[i].items)
  }

  /** Ids unique across the board are unique within each column. */
  lemma BoardUniqueColumns(columns: seq<Column<Item>>)
    requires BoardUnique(columns)
    ensures ColumnsUnique(columns)
  {
    forall i | 0 <= i < |columns| ensures UniqueIds(columns[i].items) {
      var s := columns[i].items;
      ColumnItemsOnBoard(columns, i);
      forall j, k | 0 <= j < k < |s| ensures s[j].id != s[k].id {
        assert s[j] in multiset(s) && s[k] in multiset(s);
        if s[j] == s[k] {
          TwiceInSeq(s, j, k);
        }
      }
    }
  }

  /** With unique ids, a drop within a column neither gains nor loses an item. */
  lemma DropWithinConserves(v: View, ci: nat, sourceIndex: nat, destIndex: nat, grabbed: string)
    requires ci < |v.columns| && sourceIndex < |v.columns[ci].items|
    requires |v.selectedItemIds| > 1 ==> HasGrabbed(v.columns[ci].items, v.selectedItemIds, grabbed)
    requires UniqueIds(v.columns[ci].items)
    ensures AllItems(DropWithin(v, ci, sourceIndex, destIndex, grabbed).view.columns) == AllItems(v.columns)
  {
    var s, sel := v.columns[ci].items, v.selectedItemIds;
    var e := DropWithin(v, ci, sourceIndex, destIndex, grabbed);
    if e.outcome == Moved {
      var moved: seq<Item>;
      if |sel| > 1 {
        moved := GroupMoveWithin(s, sel, grabbed, sourceIndex, destIndex);
        GroupMoveWithinConserves(s, sel, grabbed, sourceIndex, destIndex);
      } else {
        moved := Reposition(s, sourceIndex, destIndex);
        RepositionSpec(s, sourceIndex, destIndex);
      }
      assert e.view.columns == SetItems(v.columns, ci, moved);
      AllItemsUpdate(v.columns, ci, moved);
      MultisetCancel(AllItems(e.view.columns), AllItems(v.columns), multiset(s));
    }
  }

  /** Two updates of different columns change the board's items by both columns' differences. */
  lemma AllItemsUpdateTwo(columns: seq<Column<Item>>, ci: nat, di: nat, source: seq<Item>, dest: seq<Item>)
    requires ci < |columns| && di < |columns| && ci != di
    requires multiset(source) + multiset(dest) == multiset(columns[ci].items) + multiset(columns[di].items)
    ensures AllItems(SetItems(SetItems(columns, ci, source), di, dest)) == AllItems(columns)
  {
    var s, d := columns[ci].items, columns[di].items;
    var mid := SetItems(columns, ci, source);
    AllItemsUpdate(columns, ci, source);
    AllItemsUpdate(mid, di, dest);
    var after, before, between := AllItems(SetItems(mid, di, dest)), AllItems(columns), AllItems(mid);
    assert mid[di] == columns[di];
    var ms, md, mSource, mDest := multiset(s), multiset(d), multiset(source), multiset(dest);
    assert after + md == between + mDest;
    assert between + ms == before + mSource;
    forall x ensures after[x] == before[x] {
      assert (after + md)[x] == (between + mDest)[x];
      assert (between + ms)[x] == (before + mSource)[x];
      assert (mSource + mDest)[x] == (ms + md)[x];
    }
  }

  /** With unique ids in the source column, a drop across columns neither gains nor loses an item: what leaves
      the source arrives in the destination. */
  lemma DropAcrossConserves(v: View, ci: nat, di: nat, sourceIndex: nat, destIndex: nat, grabbed: string)
    requires ci < |v.columns| && di < |v.columns| && ci != di && sourceIndex < |v.columns[ci].items|
    requires |v.selectedItemIds| > 1 ==> HasGrabbed(v.columns[ci].items, v.selectedItemIds, grabbed)
    requires UniqueIds(v.columns[ci].items)
    ensures AllItems(DropAcross(v, ci, di, sourceIndex, destIndex, grabbed).view.columns) == AllItems(v.columns)
  {
    var s, d, sel := v.columns[ci].items, v.columns[di].items, v.selectedItemIds;
    var e := DropAcross(v, ci, di, sourceIndex, destIndex, grabbed);
    if e.outcome == Moved {
      var source, dest: seq<Item>;
      if |sel| > 1 {
        source, dest := GroupMoveAcrossSource(s, sel), GroupMoveAcrossDest(s, d, sel, grabbed, sourceIndex, destIndex);
        GroupMoveAcrossSpec(s, d, sel, grabbed, sourceIndex, destIndex);
      } else {
        source, dest := RemoveAt(s, sourceIndex), InsertAt(d, destIndex, [s[sourceIndex]]);
        RemoveAtMultiset(s, sourceIndex);
        InsertAtMultiset(d, destIndex, [s[sourceIndex]]);
      }
      assert e.view.columns == SetItems(SetItems(v.columns, ci, source), di, dest);
      AllItemsUpdateTwo(v.columns, ci, di, source, dest);
    }
  }

  /** With unique ids in every column, no drop gains or loses an item. */
  lemma DragEndConservesItems(v: View, r: DragPayload)
    requires PayloadConsistent(v.columns, v.selectedItemIds, r)
    requires ColumnsUnique(v.columns)
    ensures AllItems(DragEnd(v, r).view.columns) == AllItems(v.columns)
  {
    if r.destination.Some? && r.source.Some? {
      var src, dst := r.source.value, r.destination.value;
      var sel, g := v.selectedItemIds, r.draggableId;
      if src.droppableId == dst.droppableId {
        if FindColumn(v.columns, src.droppableId).Some? {
          var ci := FindColumn(v.columns, src.droppableId).value;
          if |sel| > 1 { GrabbedPresent(v.columns[ci].items, sel, src.index, g); }
          DropWithinConserves(v, ci, src.index, dst.index, g);
        }
      } else if !PairDenied(v.columns, src.droppableId, dst.droppableId) {
        if FindColumn(v.columns, src.droppableId).Some? && FindColumn(v.columns, dst.droppableId).Some? {
          var ci, di := FindColumn(v.columns, src.droppableId).value, FindColumn(v.columns, dst.droppableId).value;
          if |sel| > 1 { GrabbedPresent(v.columns[ci].items, sel, src.index, g); }
          DropAcrossConserves(v, ci, di, src.index, dst.index, g);
        }
      }
    }
  }

  /** A drop keeps item ids unique across the board: it neither gains nor loses an item. */
  lemma DragEndKeepsBoardUnique(v: View, r: DragPayload)
    requires PayloadConsistent(v.columns, v.selectedItemIds, r)
    requires BoardUnique(v.columns)
    ensures AllItems(DragEnd(v, r).view.columns) == AllItems(v.columns)
    ensures BoardUnique(DragEnd(v, r).view.columns)
  {
    BoardUniqueColumns(v.columns);
    DragEndConservesItems(v, r);
  }

  /** A committed single-item drop within a column puts the dragged item at the drop index (the last position
      when the index is past the end), keeps the other items of the column in order and touches no other column. */
  lemma DropWithinSingleMoves(v: View, ci: nat, sourceIndex: nat, destIndex: nat, grabbed: string)
    requires ci < |v.columns| && sourceIndex < |v.columns[ci].items| && |v.selectedItemIds| <= 1
    requires DropWithin(v, ci, sourceIndex, destIndex, grabbed).outcome == Moved
    ensures var s := v.columns[ci].items;
            var c := DropWithin(v, ci, sourceIndex, destIndex, grabbed).view.columns;
            var at := Min(destIndex, |s| - 1);
            && |c| == |v.columns| && |c[ci].items| == |s| && c[ci].id == v.columns[ci].id
            && c[ci].items[at] == s[sourceIndex]
            && RemoveAt(c[ci].items, at) == RemoveAt(s, sourceIndex)
            && (forall j :: 0 <= j < |c| && j != ci ==> c[j] == v.columns[j])
  {
    RepositionSpec(v.columns[ci].items, sourceIndex, destIndex);
  }

  /** A committed single-item drop across columns takes the dragged item out of the source column and puts it
      into the destination column at the drop index (appended when past the end), all else in order. */
  lemma DropAcrossSingleMoves(v: View, ci: nat, di: nat, sourceIndex: nat, destIndex: nat, grabbed: string)
    requires ci < |v.columns| && di < |v.columns| && ci != di && sourceIndex < |v.columns[ci].items|
    requires |v.selectedItemIds| <= 1
    requires DropAcross(v, ci, di, sourceIndex, destIndex, grabbed).outcome == Moved
    ensures var s, d := v.columns[ci].items, v.columns[di].items;
            var c := DropAcross(v, ci, di, sourceIndex, destIndex, grabbed).view.columns;
            var at := Min(destIndex, |d|);
            && |c| == |v.columns| && c[ci].id == v.columns[ci].id && c[di].id == v.columns[di].id
            && c[ci].items == RemoveAt(s, sourceIndex)
            && multiset(c[ci].items) + multiset{s[sourceIndex]} == multiset(s)
            && |c[di].items| == |d| + 1 && c[di].items[at] == s[sourceIndex]
            && RemoveAt(c[di].items, at) == d
            && (forall j :: 0 <= j < |c| && j != ci && j != di ==> c[j] == v.columns[j])
  {
    var s, d := v.columns[ci].items, v.columns[di].items;
    RemoveAtMultiset(s, sourceIndex);
    var dest := InsertAt(d, destIndex, [s[sourceIndex]]);
    var at := Min(destIndex, |d|);
    assert dest[at + 0] == s[sourceIndex];
    var back := RemoveAt(dest, at);
    assert |back| == |d|;
    forall j | 0 <= j < |d| ensures back[j] == d[j] {
      if j >= at {
        assert back[j] == dest[j + 1];
      }
    }
  }

  /** A committed group drop within a column keeps the unselected items in their order and gathers the selected
      ones into one contiguous block, grabbed item first, placed after the unselected items that stood before
      `finalDestIndex`. */
  lemma DropWithinGroupMoves(v: View, ci: nat, sourceIndex: nat, destIndex: nat, grabbed: string)
    requires ci < |v.columns| && sourceIndex < |v.columns[ci].items| && |v.selectedItemIds| > 1
    requires HasGrabbed(v.columns[ci].items, v.selectedItemIds, grabbed)
    requires DropWithin(v, ci, sourceIndex, destIndex, grabbed).outcome == Moved
    ensures var s, sel := v.columns[ci].items, v.selectedItemIds;
            var t := DropWithin(v, ci, sourceIndex, destIndex, grabbed).view.columns[ci].items;
            var block := GroupBlock(s, sel, grabbed);
            var k := Min(FinalDestIndex(sourceIndex, destIndex), |s|);
            && SelectionPart(t, sel, false) == SelectionPart(s, sel, false)
            && SelectionPart(t, sel, true) == block && block[0].id == grabbed
            && t == SelectionPart(s[..k], sel, false) + block + SelectionPart(s[k..], sel, false)
  {
    var s, sel := v.columns[ci].items, v.selectedItemIds;
    assert DropWithin(v, ci, sourceIndex, destIndex, grabbed).view.columns[ci].items
        == GroupMoveWithin(s, sel, grabbed, sourceIndex, destIndex);
    GroupMoveWithinShape(s, sel, grabbed, sourceIndex, destIndex);
    GroupMoveWithinKeepsOrder(s, sel, grabbed, sourceIndex, destIndex);
    GroupMoveWithinBlock(s, sel, grabbed, sourceIndex, destIndex);
    GroupBlockSpec(s, sel, grabbed);
  }

  /** A committed group drop across columns leaves the source with exactly its unselected items and places the
      block, grabbed item first, into the destination at `finalDestIndex` (clamped to its end). */
  lemma DropAcrossGroupMoves(v: View, ci: nat, di: nat, sourceIndex: nat, destIndex: nat, grabbed: string)
    requires ci < |v.columns| && di < |v.columns| && ci != di && sourceIndex < |v.columns[ci].items|
    requires |v.selectedItemIds| > 1 && HasGrabbed(v.columns[ci].items, v.selectedItemIds, grabbed)
    requires DropAcross(v, ci, di, sourceIndex, destIndex, grabbed).outcome == Moved
    ensures var s, d, sel := v.columns[ci].items, v.columns[di].items, v.selectedItemIds;
            var c := DropAcross(v, ci, di, sourceIndex, destIndex, grabbed).view.columns;
            var k := Min(FinalDestIndex(sourceIndex, destIndex), |d|);
            var block := GroupBlock(s, sel, grabbed);
            && (forall x :: x in c[ci].items <==> x in s && x.id !in sel)
            && c[di].items == d[..k] + block + d[k..] && block[0].id == grabbed
            && (forall x :: x in block ==> x in s && x.id in sel)
  {
    GroupMoveAcrossSpec(v.columns[ci].items, v.columns[di].items, v.selectedItemIds, grabbed, sourceIndex, destIndex);
    GroupBlockSpec(v.columns[ci].items, v.selectedItemIds, grabbed);
  }

  /** Dropping a single item back onto its own position leaves the board as it was, whether or not the parity
      rule fires (it can: the item after it is its neighbour once it is spliced out). */
  lemma DropInPlaceKeepsBoard(v: View, ci: nat, i: nat, grabbed: string)
    requires ci < |v.columns| && i < |v.columns[ci].items| && |v.selectedItemIds| <= 1
    ensures DropWithin(v, ci, i, i, grabbed).view.columns == v.columns
  {
    RepositionInPlace(v.columns[ci].items, i);
    assert v.columns[ci := v.columns[ci].(items := v.columns[ci].items)] == v.columns;
  }

  /** With unique ids, an item that has the id of `s[i]` is `s[i]`. */
  lemma SameIdSameItem(s: seq<Item>, i: nat, x: Item)
    requires UniqueIds(s) && i < |s| && x in s && x.id == s[i].id
    ensures x == s[i]
  {
    var j :| 0 <= j < |s| && s[j] == x;
    assert !(i < j) && !(j < i);
  }

  /** A group dropped back where it was grabbed is refused whenever the grabbed item's number is even: the
      neighbour the rule inspects is the grabbed item itself. */
  lemma GroupInPlaceEvenGrabbedVetoed(v: View, ci: nat, i: nat, grabbed: string)
    requires ci < |v.columns| && i < |v.columns[ci].items| && |v.selectedItemIds| > 1
    requires UniqueIds(v.columns[ci].items) && v.columns[ci].items[i].id == grabbed && grabbed in v.selectedItemIds
    requires Even(v.columns[ci].items[i].number)
    ensures HasGrabbed(v.columns[ci].items, v.selectedItemIds, grabbed)
    ensures DropWithin(v, ci, i, i, grabbed) == Drop(v.(itemBlocked := false, selectedItemIds := []), ParityVetoed)
  {
    var s := v.columns[ci].items;
    GrabbedPresent(s, v.selectedItemIds, i, grabbed);
    GroupBlockSpec(s, v.selectedItemIds, grabbed);
    SameIdSameItem(s, i, GroupBlock(s, v.selectedItemIds, grabbed)[0]);
  }

  /** What the live handler shows while hovering agrees with what the drop will do: for a real move (not onto
      the item's own position) that the column-pair rule lets through, `itemBlocked` is set exactly when the drop
      is refused by the parity rule. */
  lemma LiveItemBlockedMatchesDrop(v: View, r: DragPayload)
    requires PayloadConsistent(v.columns, v.selectedItemIds, r) && UpdateConsistent(v.columns, r)
    requires r.source.Some? && r.destination.Some?
    requires var src, dst := r.source.value, r.destination.value;
             && !(src.droppableId == dst.droppableId && src.index == dst.index)
             && !PairDenied(v.columns, src.droppableId, dst.droppableId)
             && UniqueIds(v.columns[FindColumn(v.columns, src.droppableId).value].items)
    ensures DragUpdate(v, r).itemBlocked <==> DragEnd(v, r).outcome == ParityVetoed
  {
    var src, dst := r.source.value, r.destination.value;
    var sel, g := v.selectedItemIds, r.draggableId;
    var ci, di := FindColumn(v.columns, src.droppableId).value, FindColumn(v.columns, dst.droppableId).value;
    var s, d := v.columns[ci].items, v.columns[di].items;
    if |sel| > 1 {
      GrabbedPresent(s, sel, src.index, g);
      GroupBlockSpec(s, sel, g);
      SameIdSameItem(s, src.index, GroupBlock(s, sel, g)[0]);
    }
    if src.droppableId == dst.droppableId {
      assert ci == di;
      if |sel| <= 1 {
        LiveMatchesDropWithin(s, src.index, dst.index);
      }
    }
  }

  /** For a move between two different columns on a board of three or more, `containerBlocked` is set while
      hovering exactly when the drop will be refused by the column-pair rule. */
  lemma LiveContainerBlockedMatchesDrop(v: View, r: DragPayload)
    requires PayloadConsistent(v.columns, v.selectedItemIds, r) && UpdateConsistent(v.columns, r)
    requires r.source.Some? && r.destination.Some? && |v.columns| >= 3
    requires r.source.value.droppableId != r.destination.value.droppableId
    ensures DragUpdate(v, r).containerBlocked <==> DragEnd(v, r).outcome == PairVetoed
  {
    var src, dst := r.source.value, r.destination.value;
    if !PairDenied(v.columns, src.droppableId, dst.droppableId) {
      var ci, di := FindColumn(v.columns, src.droppableId).value, FindColumn(v.columns, dst.droppableId).value;
      if |v.selectedItemIds| > 1 { GrabbedPresent(v.columns[ci].items, v.selectedItemIds, src.index, r.draggableId); }
      DropAcrossVetoKeepsBoard(v, ci, di, src.index, dst.index, r.draggableId);
    }
  }

  /** The items a committed drop within a column leaves there all come from that column. */
  lemma DropWithinFromColumn(v: View, ci: nat, sourceIndex: nat, destIndex: nat, grabbed: string)
    requires ci < |v.columns| && sourceIndex < |v.columns[ci].items|
    requires |v.selectedItemIds| > 1 ==> HasGrabbed(v.columns[ci].items, v.selectedItemIds, grabbed)
    requires DropWithin(v, ci, sourceIndex, destIndex, grabbed).outcome == Moved
    ensures var c := DropWithin(v, ci, sourceIndex, destIndex, grabbed).view.columns;
            c == SetItems(v.columns, ci, c[ci].items) && forall x :: x in c[ci].items ==> x in v.columns[ci].items
  {
    var s, sel := v.columns[ci].items, v.selectedItemIds;
    if |sel| > 1 {
      GroupMoveWithinFrom(s, sel, grabbed, sourceIndex, destIndex);
    } else {
      RepositionSpec(s, sourceIndex, destIndex);
      assert forall x :: x in Reposition(s, sourceIndex, destIndex) ==> x in multiset(s);
    }
  }

  /** Every item on the board after a drop within a column was on the board before, and the column ids stay. */
  lemma DropWithinInventsNothing(v: View, ci: nat, sourceIndex: nat, destIndex: nat, grabbed: string)
    requires ci < |v.columns| && sourceIndex < |v.columns[ci].items|
    requires |v.selectedItemIds| > 1 ==> HasGrabbed(v.columns[ci].items, v.selectedItemIds, grabbed)
    ensures var c := DropWithin(v, ci, sourceIndex, destIndex, grabbed).view.columns;
            && ColumnIds(c) == ColumnIds(v.columns)
            && forall x :: x in AllItems(c) ==> x in AllItems(v.columns)
  {
    var e := DropWithin(v, ci, sourceIndex, destIndex, grabbed);
    DropWithinVetoKeepsBoard(v, ci, sourceIndex, destIndex, grabbed);
    if e.outcome == Moved {
      DropWithinFromColumn(v, ci, sourceIndex, destIndex, grabbed);
      var moved := e.view.columns[ci].items;
      forall x | x in moved ensures x in AllItems(v.columns) {
        ColumnItemOnBoard(v.columns, ci, x);
      }
      SetItemsWithin(v.columns, ci, moved, AllItems(v.columns));
      ColumnIdsUpdate(v.columns, ci, moved);
    }
  }

  /** The items a committed drop across columns leaves in the two columns all come from those two columns. */
  lemma DropAcrossFromColumns(v: View, ci: nat, di: nat, sourceIndex: nat, destIndex: nat, grabbed: string)
    requires ci < |v.columns| && di < |v.columns| && ci != di && sourceIndex < |v.columns[ci].items|
    requires |v.selectedItemIds| > 1 ==> HasGrabbed(v.columns[ci].items, v.selectedItemIds, grabbed)
    requires DropAcross(v, ci, di, sourceIndex, destIndex, grabbed).outcome == Moved
    ensures var c := DropAcross(v, ci, di, sourceIndex, destIndex, grabbed).view.columns;
            var s, d := v.columns[ci].items, v.columns[di].items;
            && c == SetItems(SetItems(v.columns, ci, c[ci].items), di, c[di].items)
            && (forall x :: x in c[ci].items ==> x in s)
            && (forall x :: x in c[di].items ==> x in d || x in s)
  {
    var s, d, sel := v.columns[ci].items, v.columns[di].items, v.selectedItemIds;
    if |sel| > 1 {
      GroupMoveAcrossFrom(s, d, sel, grabbed, sourceIndex, destIndex);
    } else {
      RemoveAtMultiset(s, sourceIndex);
      InsertAtMultiset(d, destIndex, [s[sourceIndex]]);
      assert forall x :: x in RemoveAt(s, sourceIndex) ==> x in multiset(s);
      assert forall x :: x in InsertAt(d, destIndex, [s[sourceIndex]]) ==> x in multiset(d) + multiset([s[sourceIndex]]);
    }
  }

  /** The same for a drop across columns. */
  lemma DropAcrossInventsNothing(v: View, ci: nat, di: nat, sourceIndex: nat, destIndex: nat, grabbed: string)
    requires ci < |v.columns| && di < |v.columns| && ci != di && sourceIndex < |v.columns[ci].items|
    requires |v.selectedItemIds| > 1 ==> HasGrabbed(v.columns[ci].items, v.selectedItemIds, grabbed)
    ensures var c := DropAcross(v, ci, di, sourceIndex, destIndex, grabbed).view.columns;
            && ColumnIds(c) == ColumnIds(v.columns)
            && forall x :: x in AllItems(c) ==> x in AllItems(v.columns)
  {
    var e := DropAcross(v, ci, di, sourceIndex, destIndex, grabbed);
    DropAcrossVetoKeepsBoard(v, ci, di, sourceIndex, destIndex, grabbed);
    if e.outcome == Moved {
      DropAcrossFromColumns(v, ci, di, sourceIndex, destIndex, grabbed);
      var source, dest := e.view.columns[ci].items, e.view.columns[di].items;
      var pool := AllItems(v.columns);
      var mid := SetItems(v.columns, ci, source);
      forall x | x in source || x in dest ensures x in pool {
        if x in v.columns[ci].items { ColumnItemOnBoard(v.columns, ci, x); } else { ColumnItemOnBoard(v.columns, di, x); }
      }
      SetItemsWithin(v.columns, ci, source, pool);
      SetItemsWithin(mid, di, dest, pool);
      ColumnIdsUpdate(v.columns, ci, source);
      ColumnIdsUpdate(mid, di, dest);
    }
  }

  /** No drop creates an item or a column: every item on the board afterwards was on it before, and the set of
      column ids is unchanged. Unlike conservation this needs no assumption about ids. */
  lemma DragEndInventsNothing(v: View, r: DragPayload)
    requires PayloadConsistent(v.columns, v.selectedItemIds, r)
    ensures var c := DragEnd(v, r).view.columns;
            && ColumnIds(c) == ColumnIds(v.columns)
            && forall x :: x in AllItems(c) ==> x in AllItems(v.columns)
  {
    if r.destination.Some? && r.source.Some? {
      var src, dst := r.source.value, r.destination.value;
      var sel, g := v.selectedItemIds, r.draggableId;
      if src.droppableId == dst.droppableId {
        if FindColumn(v.columns, src.droppableId).Some? {
          var ci := FindColumn(v.columns, src.droppableId).value;
          if |sel| > 1 { GrabbedPresent(v.columns[ci].items, sel, src.index, g); }
          DropWithinInventsNothing(v, ci, src.index, dst.index, g);
        }
      } else if !PairDenied(v.columns, src.droppableId, dst.droppableId) {
        if FindColumn(v.columns, src.droppableId).Some? && FindColumn(v.columns, dst.droppableId).Some? {
          var ci, di := FindColumn(v.columns, src.droppableId).value, FindColumn(v.columns, dst.droppableId).value;
          if |sel| > 1 { GrabbedPresent(v.columns[ci].items, sel, src.index, g); }
          DropAcrossInventsNothing(v, ci, di, src.index, dst.index, g);
        }
      }
    }
  }
}
