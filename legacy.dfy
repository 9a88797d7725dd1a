/** The earlier single-file board of index.js: two columns of ten cards, drag and drop within and between
    columns under the column-pair rule, and buttons that add a card or a column. Cards carry no number, so this
    board has no parity rule and no multi-select. Its id generators (index.js:5-24) are copies of those of
    src/utils/uuid.js with id sets of their own: the board owns a `Registry` of its own. */
module Legacy {
  import opened Splice
  import opened Board
  import opened Uuid
  import opened Validator

  /** A card of index.js: an id and its text. */
  datatype Card = Card(id: string, content: string)

  /** The text `item${num} ${k}` of the card at position `k` (from 0) that `getItems(num, ...)` makes. */
  function CardContent(num: nat, k: nat): string
  {
    "item" + NatToString(num) + " " + NatToString(k)
  }

  function CardIds(cards: seq<Card>): (r: set<string>)
    ensures forall c :: c in cards ==> c.id in r
  {
    set c | c in cards :: c.id
  }

  /** Cards as `getItems(num, count)` makes them: `count` cards with the texts `item{num} 0`, `item{num} 1`, ...
      under distinct ids. */
  predicate MadeCards(cards: seq<Card>, num: nat, count: nat)
  {
    && |cards| == count
    && (forall k :: 0 <= k < |cards| ==> cards[k].content == CardContent(num, k))
    && (forall i, j :: 0 <= i < j < |cards| ==> cards[i].id != cards[j].id)
  }

  /** Appending the next card under an id not yet used keeps the cards as `getItems` makes them. */
  lemma MadeCardsExtend(cards: seq<Card>, card: Card, num: nat)
    requires MadeCards(cards, num, |cards|)
    requires card.content == CardContent(num, |cards|) && card.id !in CardIds(cards)
    ensures MadeCards(cards + [card], num, |cards| + 1)
    ensures CardIds(cards + [card]) == CardIds(cards) + {card.id}
  {
    var longer := cards + [card];
    forall k | 0 <= k < |longer| ensures longer[k].content == CardContent(num, k) {
      if k < |cards| {
        assert longer[k] == cards[k];
      }
    }
    forall i, j | 0 <= i < j < |longer| ensures longer[i].id != longer[j].id {
      assert longer[i] == cards[i];
      if j < |cards| {
        assert longer[j] == cards[j];
      }
    }
  }

  /** `now` is `before` plus the ids of `cards`, none of which was in `before`. */
  predicate Issued(cards: seq<Card>, before: set<string>, now: set<string>)
  {
    now == before + CardIds(cards) && forall c :: c in cards ==> c.id !in before
  }

  /** Issuing one more id, for one more card. */
  lemma IssuedExtend(cards: seq<Card>, card: Card, before: set<string>, now: set<string>)
    requires Issued(cards, before, now) && card.id !in now
    ensures card.id !in CardIds(cards) && |now + {card.id}| == |now| + 1
    ensures Issued(cards + [card], before, now + {card.id})
  {
    var longer := cards + [card];
    assert CardIds(cards) <= now;
    assert CardIds(longer) == CardIds(cards) + {card.id} by {
      forall c | c in longer ensures c == card || c in cards {
        var k :| 0 <= k < |longer| && longer[k] == c;
        if k < |cards| { assert cards[k] == c; }
      }
    }
    forall c | c in longer ensures c.id !in before {
      if c != card {
        var k :| 0 <= k < |longer| && longer[k] == c;
        assert k < |cards| && cards[k] == c;
      }
    }
  }

  /** A board of two columns holds the cards of both, and its column ids are the two given. */
  lemma TwoColumns(firstId: string, secondId: string, first: seq<Card>, second: seq<Card>)
    ensures var board := [Column(firstId, first), Column(secondId, second)];
            && ColumnIds(board) == {firstId, secondId}
            && AllItems(board) == multiset(first) + multiset(second)
  {
    var board := [Column(firstId, first), Column(secondId, second)];
    var one := [Column(firstId, first)];
    assert one[1..] == [];
    AllItemsAppend(one, Column(secondId, second));
    assert board == one + [Column(secondId, second)];
    assert board[0].id == firstId && board[1].id == secondId;
  }

  /** The board after a drop and how the handler ended. */
  datatype LegacyDrop = LegacyDrop(columns: seq<Column<Card>>, outcome: Outcome)

  /** What the drag library guarantees about a payload: a source column that exists has a card at the reported
      index. */
  predicate LegacyPayloadConsistent(columns: seq<Column<Card>>, r: DragPayload)
  {
    r.source.Some? ==>
      match FindColumn(columns, r.source.value.droppableId)
      case None => true
      case Some(i) => r.source.value.index < |columns[i].items|
  }

  /** `onDragEnd` of index.js (lines 48-116). Within a column the card is spliced out and back in at the
      destination index. Between columns the pair rule is checked first; then the card is spliced out of its
      column, and only afterwards is the destination column looked up: when it is missing the handler returns
      with the card already gone from the shared items array. */
  function LegacyDragEnd(columns: seq<Column<Card>>, r: DragPayload): LegacyDrop
    requires LegacyPayloadConsistent(columns, r)
  {
    if r.destination.None? || r.source.None? then LegacyDrop(columns, Cancelled)
    else
      var src, dst := r.source.value, r.destination.value;
      if dst.droppableId == src.droppableId then
        match FindColumn(columns, dst.droppableId)
        case None => LegacyDrop(columns, SourceColumnMissing)
        case Some(i) => LegacyDrop(SetItems(columns, i, Reposition(columns[i].items, src.index, dst.index)), Moved)
      else if PairDenied(columns, src.droppableId, dst.droppableId) then LegacyDrop(columns, PairVetoed)
      else
        match FindColumn(columns, src.droppableId)
        case None => LegacyDrop(columns, SourceColumnMissing)
        case Some(si) =>
          var card := columns[si].items[src.index];
          var taken := SetItems(columns, si, RemoveAt(columns[si].items, src.index));
          match FindColumn(taken, dst.droppableId)
          case None => LegacyDrop(taken, DestColumnMissing)
          case Some(di) => LegacyDrop(SetItems(taken, di, InsertAt(taken[di].items, dst.index, [card])), Moved)
  }

  /** Rewriting a column's items does not change which column an id finds. */
  lemma {:induction false} FindColumnSetItems<T>(columns: seq<Column<T>>, i: nat, items: seq<T>, id: string)
    requires i < |columns|
    ensures FindColumn(SetItems(columns, i, items), id) == FindColumn(columns, id)
  {
    if |columns| > 0 && columns[0].id != id && i > 0 {
      assert SetItems(columns, i, items)[1..] == SetItems(columns[1..], i - 1, items);
      FindColumnSetItems(columns[1..], i - 1, items, id);
    }
  }

  /** Every way but a drop between columns whose destination is missing keeps the board; a refused or
      abandoned drop leaves it untouched. */
  lemma LegacyVetoKeepsBoard(columns: seq<Column<Card>>, r: DragPayload)
    requires LegacyPayloadConsistent(columns, r)
    ensures var e := LegacyDragEnd(columns, r);
            e.outcome in {Cancelled, SourceColumnMissing, PairVetoed} ==> e.columns == columns
  {
  }

  /** The pair rule: with three or more columns a card never goes from the first column to the third. */
  lemma LegacyPairRuleRefusesFirstToThird(columns: seq<Column<Card>>, r: DragPayload)
    requires LegacyPayloadConsistent(columns, r)
    requires |columns| >= 3 && columns[0].id != columns[2].id
    requires r.source.Some? && r.source.value.droppableId == columns[0].id
    requires r.destination.Some? && r.destination.value.droppableId == columns[2].id
    ensures LegacyDragEnd(columns, r) == LegacyDrop(columns, PairVetoed)
  {
  }

  /** A drop between columns whose destination column is missing loses the card: it is gone from its column
      and from the board, and the other columns are as before. */
  lemma LegacyMissingDestinationLosesCard(columns: seq<Column<Card>>, r: DragPayload, si: nat)
    requires LegacyPayloadConsistent(columns, r)
    requires r.source.Some? && r.destination.Some?
    requires r.source.value.droppableId != r.destination.value.droppableId
    requires !PairDenied(columns, r.source.value.droppableId, r.destination.value.droppableId)
    requires FindColumn(columns, r.source.value.droppableId) == Some(si)
    requires FindColumn(columns, r.destination.value.droppableId).None?
    ensures var e, card := LegacyDragEnd(columns, r), columns[si].items[r.source.value.index];
            && e.outcome == DestColumnMissing
            && |e.columns| == |columns| && |e.columns[si].items| + 1 == |columns[si].items|
            && (forall j :: 0 <= j < |columns| && j != si ==> e.columns[j] == columns[j])
            && AllItems(e.columns) + multiset{card} == AllItems(columns)
            && (AllItems(columns)[card] == 1 ==> card !in AllItems(e.columns))
  {
    var src := r.source.value;
    var s := columns[si].items;
    var card := s[src.index];
    var taken := SetItems(columns, si, RemoveAt(s, src.index));
    FindColumnSetItems(columns, si, RemoveAt(s, src.index), r.destination.value.droppableId);
    AllItemsUpdate(columns, si, RemoveAt(s, src.index));
    RemoveAtMultiset(s, src.index);
    MultisetCancel(AllItems(taken) + multiset{card}, AllItems(columns), multiset(RemoveAt(s, src.index)));
  }

  /** A drop moves cards without creating or dropping any, except when the destination column is missing, where
      exactly one card is lost; the column ids never change. */
  lemma LegacyDragEndConserves(columns: seq<Column<Card>>, r: DragPayload)
    requires LegacyPayloadConsistent(columns, r)
    ensures var e := LegacyDragEnd(columns, r);
            && ColumnIds(e.columns) == ColumnIds(columns)
            && (e.outcome != DestColumnMissing ==> AllItems(e.columns) == AllItems(columns))
            && (e.outcome == DestColumnMissing ==> |AllItems(e.columns)| + 1 == |AllItems(columns)|)
            && AllItems(e.columns) <= AllItems(columns)
  {
    if r.destination.Some? && r.source.Some? {
      var src, dst := r.source.value, r.destination.value;
      if dst.droppableId == src.droppableId {
        if FindColumn(columns, dst.droppableId).Some? {
          var i := FindColumn(columns, dst.droppableId).value;
          var moved := Reposition(columns[i].items, src.index, dst.index);
          RepositionSpec(columns[i].items, src.index, dst.index);
          AllItemsUpdate(columns, i, moved);
          MultisetCancel(AllItems(SetItems(columns, i, moved)), AllItems(columns), multiset(moved));
          ColumnIdsUpdate(columns, i, moved);
        }
      } else if !PairDenied(columns, src.droppableId, dst.droppableId) && FindColumn(columns, src.droppableId).Some? {
        var si := FindColumn(columns, src.droppableId).value;
        LegacyCrossConserves(columns, r, si);
      }
    }
  }

  /** The drop between columns, from the source column at `si` on. */
  lemma LegacyCrossConserves(columns: seq<Column<Card>>, r: DragPayload, si: nat)
    requires LegacyPayloadConsistent(columns, r)
    requires r.source.Some? && r.destination.Some?
    requires r.source.value.droppableId != r.destination.value.droppableId
    requires !PairDenied(columns, r.source.value.droppableId, r.destination.value.droppableId)
    requires FindColumn(columns, r.source.value.droppableId) == Some(si)
    ensures var e := LegacyDragEnd(columns, r);
            && ColumnIds(e.columns) == ColumnIds(columns)
            && (e.outcome != DestColumnMissing ==> AllItems(e.columns) == AllItems(columns))
            && (e.outcome == DestColumnMissing ==> |AllItems(e.columns)| + 1 == |AllItems(columns)|)
            && AllItems(e.columns) <= AllItems(columns)
  {
    var src, dst := r.source.value, r.destination.value;
    var s := columns[si].items;
    var card := s[src.index];
    var rest := RemoveAt(s, src.index);
    var taken := SetItems(columns, si, rest);
    ColumnIdsUpdate(columns, si, rest);
    AllItemsUpdate(columns, si, rest);
    RemoveAtMultiset(s, src.index);
    MultisetCancel(AllItems(taken) + multiset{card}, AllItems(columns), multiset(rest));
    match FindColumn(taken, dst.droppableId)
    case None =>
    case Some(di) =>
      var d := taken[di].items;
      var placed := InsertAt(d, dst.index, [card]);
      ColumnIdsUpdate(taken, di, placed);
      AllItemsUpdate(taken, di, placed);
      InsertAtMultiset(d, dst.index, [card]);
      MultisetCancel(AllItems(SetItems(taken, di, placed)), AllItems(taken) + multiset{card}, multiset(d));
  }

  /** A completed drop between columns is undone by its inverse splices: the card sits at the destination index
      (clamped to the column's end) and taking it out there gives back the destination column; putting it back
      at the source index gives back the source column. Every other column is untouched. */
  lemma LegacyCrossMovePlacesCard(columns: seq<Column<Card>>, r: DragPayload, si: nat, di: nat)
    requires LegacyPayloadConsistent(columns, r)
    requires r.source.Some? && r.destination.Some?
    requires r.source.value.droppableId != r.destination.value.droppableId
    requires !PairDenied(columns, r.source.value.droppableId, r.destination.value.droppableId)
    requires FindColumn(columns, r.source.value.droppableId) == Some(si)
    requires FindColumn(columns, r.destination.value.droppableId) == Some(di)
    ensures var e, src, dst := LegacyDragEnd(columns, r), r.source.value, r.destination.value;
            var s, d := columns[si].items, columns[di].items;
            var at := Min(dst.index, |d|);
            && e.outcome == Moved && |e.columns| == |columns| && si != di
            && |e.columns[di].items| == |d| + 1 && e.columns[di].items[at] == s[src.index]
            && RemoveAt(e.columns[di].items, at) == d
            && src.index <= |e.columns[si].items|
            && InsertAt(e.columns[si].items, src.index, [s[src.index]]) == s
            && (forall j :: 0 <= j < |columns| && j != si && j != di ==> e.columns[j] == columns[j])
  {
    var src, dst := r.source.value, r.destination.value;
    var s, d := columns[si].items, columns[di].items;
    var rest := RemoveAt(s, src.index);
    FindColumnSetItems(columns, si, rest, dst.droppableId);
    var taken := SetItems(columns, si, rest);
    assert taken[di].items == d;
    var placed := InsertAt(d, dst.index, [s[src.index]]);
    assert placed[Min(dst.index, |d|) + 0] == s[src.index];
    RemoveAfterInsert(d, dst.index, s[src.index]);
    RestoreAfterRemove(s, src.index);
  }

  /** A completed drop within a column keeps the column's cards and puts the card at the destination index
      (clamped to the last position); taking it out there leaves what taking it out of the old position left. */
  lemma LegacyWithinMovePlacesCard(columns: seq<Column<Card>>, r: DragPayload, i: nat)
    requires LegacyPayloadConsistent(columns, r)
    requires r.source.Some? && r.destination.Some?
    requires r.source.value.droppableId == r.destination.value.droppableId
    requires FindColumn(columns, r.source.value.droppableId) == Some(i)
    ensures var e, src, dst := LegacyDragEnd(columns, r), r.source.value, r.destination.value;
            var s := columns[i].items;
            && e.outcome == Moved && |e.columns| == |columns|
            && multiset(e.columns[i].items) == multiset(s)
            && |e.columns[i].items| == |s|
            && e.columns[i].items[Min(dst.index, |s| - 1)] == s[src.index]
            && RemoveAt(e.columns[i].items, Min(dst.index, |s| - 1)) == RemoveAt(s, src.index)
            && (forall j :: 0 <= j < |columns| && j != i ==> e.columns[j] == columns[j])
  {
    RepositionSpec(columns[i].items, r.source.value.index, r.destination.value.index);
  }

  /** `getItems(num, count)` of index.js: `count` cards under fresh ids drawn from `registry`. */
  method GetCards(registry: Registry, num: nat, count: nat) returns (cards: seq<Card>)
    requires |registry.itemIds| + count <= SuffixRange
    modifies registry
    ensures MadeCards(cards, num, count)
    ensures Issued(cards, old(registry.itemIds), registry.itemIds)
    ensures |registry.itemIds| == |old(registry.itemIds)| + count
    ensures registry.columnIds == old(registry.columnIds)
  {
    cards := [];
    var k := 0;
    while k < count
      invariant 0 <= k <= count && MadeCards(cards, num, k)
      invariant Issued(cards, old(registry.itemIds), registry.itemIds)
      invariant |registry.itemIds| == |old(registry.itemIds)| + k
      invariant registry.columnIds == old(registry.columnIds)
    {
      CanIssueWhenRoom(registry.itemIds, ItemPrefix);
      ghost var issued := registry.itemIds;
      var id := registry.GenerateColumnItemId();
      var card := Card(id, CardContent(num, k));
      IssuedExtend(cards, card, old(registry.itemIds), issued);
      MadeCardsExtend(cards, card, num);
      cards := cards + [card];
      k := k + 1;
    }
  }

  class LegacyBoard {
    var columns: seq<Column<Card>>
    /** The module-level `columnIdSet` and `columnItemIdSet` of index.js. */
    const registry: Registry

    /** Every id on the board is registered, so no generated id can collide with it. */
    ghost predicate Registered()
      reads this, registry
    {
      && ColumnIds(columns) <= registry.columnIds
      && forall c :: c in AllItems(columns) ==> c.id in registry.itemIds
    }

    /** The initial state: two columns under fresh ids, the first holding `item1 0` to `item1 9` and the second
        `item2 0` to `item2 9`, all under distinct ids, drawn from id sets that start empty. */
    constructor (registry: Registry)
      requires registry.columnIds == {} && registry.itemIds == {}
      modifies registry
      ensures this.registry == registry
      ensures |columns| == 2 && columns[0].id != columns[1].id
      ensures MadeCards(columns[0].items, 1, 10) && MadeCards(columns[1].items, 2, 10)
      ensures CardIds(columns[0].items) !! CardIds(columns[1].items)
      ensures Registered()
    {
      CanIssueWhenRoom(registry.columnIds, ColumnPrefix);
      var firstId := registry.GenerateColumnId();
      var first := GetCards(registry, 1, 10);
      CanIssueWhenRoom(registry.columnIds, ColumnPrefix);
      var secondId := registry.GenerateColumnId();
      var second := GetCards(registry, 2, 10);
      var board := [Column(firstId, first), Column(secondId, second)];
      TwoColumns(firstId, secondId, first, second);
      forall c: Card | c in AllItems(board) ensures c.id in registry.itemIds {
        assert c in first || c in second;
      }
      this.registry := registry;
      columns := board;
    }

    /** `onDragEnd`, with the card spliced out of and into the shared items arrays; an `alert` becomes the
        outcome. */
    method OnDragEnd(r: DragPayload) returns (outcome: Outcome)
      requires LegacyPayloadConsistent(columns, r)
      modifies this
      ensures LegacyDrop(columns, outcome) == LegacyDragEnd(old(columns), r)
      ensures old(Registered()) ==> Registered()
    {
      ghost var before := columns;
      LegacyDragEndConserves(columns, r);
      if r.destination.None? || r.source.None? {
        return Cancelled;
      }
      var src, dst := r.source.value, r.destination.value;
      if dst.droppableId == src.droppableId {
        var found := FindColumn(columns, dst.droppableId);
        if found.None? {
          return SourceColumnMissing;
        }
        var i := found.value;
        var items := columns[i].items;
        var card := items[src.index];
        var rest := RemoveAt(items, src.index);
        columns := SetItems(columns, i, InsertAt(rest, dst.index, [card]));
        return Moved;
      }
      if |columns| >= 3 {
        if src.droppableId == columns[0].id && dst.droppableId == columns[2].id {
          return PairVetoed;
        }
      }
      outcome := CrossDrop(src, dst);
      assert columns == LegacyDragEnd(before, r).columns;
    }

    /** The drop between columns, after the pair rule has let it through. */
    method CrossDrop(src: Location, dst: Location) returns (outcome: Outcome)
      requires src.droppableId != dst.droppableId && !PairDenied(columns, src.droppableId, dst.droppableId)
      requires LegacyPayloadConsistent(columns, DragPayload(Some(src), Some(dst), ""))
      modifies this
      ensures LegacyDrop(columns, outcome) == LegacyDragEnd(old(columns), DragPayload(Some(src), Some(dst), ""))
    {
      var sourceFound := FindColumn(columns, src.droppableId);
      if sourceFound.None? {
        return SourceColumnMissing;
      }
      var si := sourceFound.value;
      var sourceItems := columns[si].items;
      var card := sourceItems[src.index];
      FindColumnSetItems(columns, si, RemoveAt(sourceItems, src.index), dst.droppableId);
      columns := SetItems(columns, si, RemoveAt(sourceItems, src.index));
      var destFound := FindColumn(columns, dst.droppableId);
      if destFound.None? {
        return DestColumnMissing;
      }
      var di := destFound.value;
      columns := SetItems(columns, di, InsertAt(columns[di].items, dst.index, [card]));
      outcome := Moved;
    }

    /** The "+" button of the column `columnId`: pushes a `TestItem` card under a fresh id. A column that is not
        found leaves everything, the id set included, as it was. */
    method AddItem(columnId: string)
      requires CanIssue(registry.itemIds, ItemPrefix)
      modifies this, registry
      ensures FindColumn(old(columns), columnId).None? ==> columns == old(columns) && registry.itemIds == old(registry.itemIds)
      ensures FindColumn(old(columns), columnId).Some? ==>
                var i, n := FindColumn(old(columns), columnId).value, |old(columns)[FindColumn(old(columns), columnId).value].items|;
                && |columns| == |old(columns)| && |columns[i].items| == n + 1
                && columns == SetItems(old(columns), i, old(columns)[i].items + [columns[i].items[n]])
                && columns[i].items[n].content == "TestItem"
                && columns[i].items[n].id !in old(registry.itemIds)
                && registry.itemIds == old(registry.itemIds) + {columns[i].items[n].id}
      ensures registry.columnIds == old(registry.columnIds) && ColumnIds(columns) == ColumnIds(old(columns))
      ensures old(Registered()) ==> Registered()
    {
      var found := FindColumn(columns, columnId);
      if found.None? {
        return;
      }
      var i := found.value;
      var id := registry.GenerateColumnItemId();
      var card := Card(id, "TestItem");
      var items := columns[i].items;
      var longer := items + [card];
      assert longer[|items|] == card;
      ghost var board := columns;
      ColumnIdsUpdate(board, i, longer);
      if old(Registered()) {
        forall c | c in AllItems(SetItems(board, i, longer)) ensures c.id in registry.itemIds {
          AllItemsUpdate(board, i, longer);
          assert c in AllItems(board) + multiset(longer);
          if c in items {
            ColumnItemOnBoard(board, i, c);
          }
        }
      }
      columns := SetItems(columns, i, longer);
    }

    /** The "+" button beside the columns: appends an empty column under a fresh id. */
    method AddColumn()
      requires CanIssue(registry.columnIds, ColumnPrefix)
      modifies this, registry
      ensures |columns| == |old(columns)| + 1 && columns[..|old(columns)|] == old(columns)
      ensures columns[|old(columns)|].items == [] && columns[|old(columns)|].id !in old(registry.columnIds)
      ensures registry.columnIds == old(registry.columnIds) + {columns[|old(columns)|].id}
      ensures registry.itemIds == old(registry.itemIds)
      ensures old(Registered()) ==> Registered()
    {
      var id := registry.GenerateColumnId();
      var column := Column(id, []);
      AllItemsAppend(columns, column);
      assert ColumnIds(columns + [column]) == ColumnIds(columns) + {id} by {
        var added := columns + [column];
        assert forall i :: 0 <= i < |columns| ==> added[i] == columns[i];
        assert added[|columns|] == column;
      }
      columns := columns + [column];
    }
  }
}
