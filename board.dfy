/** The board's data model (src/App.js, index.js): items, columns, and what the drag library reports. */
module Board {
  import opened Splice

  /** An item of src/App.js. `number` is fixed when the item is created and drives the parity rule. */
  datatype Item = Item(id: string, content: string, number: int)

  /** A column: an id and its items in display order. `T` is the item type (index.js cards carry no number). */
  datatype Column<T> = Column(id: string, items: seq<T>)

  /** `{droppableId, index}` as react-beautiful-dnd reports a position. */
  datatype Location = Location(droppableId: string, index: nat)

  /** The payload of a drag callback; `source` or `destination` is absent when the drag is outside every
      drop target. */
  datatype DragPayload = DragPayload(source: Option<Location>, destination: Option<Location>, draggableId: string)

  /** How a drop handler ended: the early returns of `onDragEnd`, or a committed move. */
  datatype Outcome = Cancelled | SourceColumnMissing | DestColumnMissing | PairVetoed | ParityVetoed | Moved

  /** `n % 2 === 0`. JavaScript's `%` truncates, Dafny's is Euclidean, but on integers both leave a zero
      remainder exactly for the even numbers. */
  predicate Even(n: int)
  {
    n % 2 == 0
  }

  /** `columns.find(column => column.id === id)`, given as the index of the first match. */
  function FindColumn<T>(columns: seq<Column<T>>, id: string): (r: Option<nat>)
    ensures r.Some? ==> r.value < |columns| && columns[r.value].id == id
    ensures r.Some? ==> forall j :: 0 <= j < r.value ==> columns[j].id != id
    ensures r.None? ==> forall j :: 0 <= j < |columns| ==> columns[j].id != id
  {
    if |columns| == 0 then None
    else if columns[0].id == id then Some(0)
    else match FindColumn(columns[1..], id)
      case None => None
      case Some(k) => Some(k + 1)
  }

  /** The board after `column.items = items` on the column at index `i`. */
  function SetItems<T>(columns: seq<Column<T>>, i: nat, items: seq<T>): (r: seq<Column<T>>)
    requires i < |columns|
    ensures |r| == |columns| && r[i].id == columns[i].id && r[i].items == items
    ensures forall j :: 0 <= j < |columns| && j != i ==> r[j] == columns[j]
  {
    columns[i := columns[i].(items := items)]
  }

  /** A second write to the same column overrides the first; writing a column's own items back restores the
      board. */
  lemma SetItemsTwice<T>(columns: seq<Column<T>>, i: nat, first: seq<T>, second: seq<T>)
    requires i < |columns|
    ensures SetItems(SetItems(columns, i, first), i, second) == SetItems(columns, i, second)
    ensures second == columns[i].items ==> SetItems(columns, i, second) == columns
  {
  }

  /** Every item on the board, with multiplicity. */
  function AllItems<T>(columns: seq<Column<T>>): multiset<T>
  {
    if columns == [] then multiset{} else multiset(columns[0].items) + AllItems(columns[1..])
  }

  /** Replacing the items of one column changes the board's items by exactly that column's difference. */
  lemma {:induction false} AllItemsUpdate<T>(columns: seq<Column<T>>, i: nat, items: seq<T>)
    requires i < |columns|
    ensures AllItems(SetItems(columns, i, items)) + multiset(columns[i].items) == AllItems(columns) + multiset(items)
  {
    var updated := columns[i := columns[i].(items := items)];
    if i > 0 {
      var tail := columns[1..];
      assert tail[i - 1] == columns[i] && updated[0] == columns[0];
      assert updated[1..] == tail[i - 1 := tail[i - 1].(items := items)];
      AllItemsUpdate(tail, i - 1, items);
      assert AllItems(updated[1..]) + multiset(columns[i].items) == AllItems(tail) + multiset(items);
      assert AllItems(updated) == multiset(updated[0].items) + AllItems(updated[1..]);
      assert AllItems(columns) == multiset(columns[0].items) + AllItems(tail);
      calc {
        AllItems(updated) + multiset(columns[i].items);
        multiset(columns[0].items) + (AllItems(updated[1..]) + multiset(columns[i].items));
        multiset(columns[0].items) + (AllItems(tail) + multiset(items));
        AllItems(columns) + multiset(items);
      }
    } else {
      assert updated[1..] == columns[1..];
    }
  }

  lemma MultisetCancel<T>(a: multiset<T>, b: multiset<T>, c: multiset<T>)
    requires a + c == b + c
    ensures a == b
  {
    forall x ensures a[x] == b[x] {
      assert (a + c)[x] == (b + c)[x];
    }
  }

  /** An item of any column is on the board. */
  lemma {:induction false} ColumnItemOnBoard<T>(columns: seq<Column<T>>, i: nat, x: T)
    requires i < |columns| && x in columns[i].items
    ensures x in AllItems(columns)
  {
    if i > 0 {
      ColumnItemOnBoard(columns[1..], i - 1, x);
    }
  }

  /** Rewriting a column with items drawn from `pool` keeps every item of the board inside `pool`. */
  lemma SetItemsWithin<T>(columns: seq<Column<T>>, i: nat, items: seq<T>, pool: multiset<T>)
    requires i < |columns|
    requires forall x :: x in AllItems(columns) ==> x in pool
    requires forall x :: x in items ==> x in pool
    ensures forall x :: x in AllItems(SetItems(columns, i, items)) ==> x in pool
  {
    forall x | x in AllItems(SetItems(columns, i, items)) ensures x in pool {
      AllItemsUpdate(columns, i, items);
      assert x in AllItems(columns) + multiset(items);
    }
  }

  /** An item on the board is in some column. */
  lemma {:induction false} OnBoardInColumn<T>(columns: seq<Column<T>>, x: T)
    requires x in AllItems(columns)
    ensures exists i :: 0 <= i < |columns| && x in columns[i].items
  {
    if x !in columns[0].items {
      OnBoardInColumn(columns[1..], x);
      var i :| 0 <= i < |columns[1..]| && x in columns[1..][i].items;
      assert x in columns[i + 1].items;
    }
  }

  /** Appending a column adds its items to the board. */
  lemma {:induction false} AllItemsAppend<T>(columns: seq<Column<T>>, c: Column<T>)
    ensures AllItems(columns + [c]) == AllItems(columns) + multiset(c.items)
  {
    if columns == [] {
      assert ([] + [c])[1..] == [];
    } else {
      assert (columns + [c])[1..] == columns[1..] + [c];
      AllItemsAppend(columns[1..], c);
    }
  }

  function ColumnIds<T>(columns: seq<Column<T>>): set<string>
  {
    set i | 0 <= i < |columns| :: columns[i].id
  }

  /** Rewriting a column's items keeps the board's column ids. */
  lemma ColumnIdsUpdate<T>(columns: seq<Column<T>>, i: nat, items: seq<T>)
    requires i < |columns|
    ensures ColumnIds(SetItems(columns, i, items)) == ColumnIds(columns)
  {
    var updated := SetItems(columns, i, items);
    assert forall j :: 0 <= j < |columns| ==> updated[j].id == columns[j].id;
  }

  /** No two items of `s` share an id. */
  predicate UniqueIds(s: seq<Item>)
  {
    forall i, j :: 0 <= i < j < |s| ==> s[i].id != s[j].id
  }

  /** No item occurs twice and no two different items share an id. */
  predicate UniqueBag(m: multiset<Item>)
  {
    && (forall x :: x in m ==> m[x] == 1)
    && (forall x, y :: x in m && y in m && x.id == y.id ==> x == y)
  }

  /** Item ids are unique across the whole board, which is what the id registries aim at. */
  predicate BoardUnique(columns: seq<Column<Item>>)
  {
    UniqueBag(AllItems(columns))
  }

  /** A sequence with unique ids holds each of its items once. */
  lemma {:induction false} UniqueIdsBag(s: seq<Item>)
    requires UniqueIds(s)
    ensures UniqueBag(multiset(s))
  {
    if s != [] {
      var rest := s[1..];
      assert UniqueIds(rest) by {
        forall i, j | 0 <= i < j < |rest| ensures rest[i].id != rest[j].id {
          assert rest[i] == s[i + 1] && rest[j] == s[j + 1];
        }
      }
      UniqueIdsBag(rest);
      forall x | x in rest ensures x.id != s[0].id {
        var k :| 0 <= k < |rest| && rest[k] == x;
        assert s[k + 1] == x;
      }
      assert s == [s[0]] + rest;
      var m, tail := multiset(s), multiset(rest);
      assert m == multiset{s[0]} + tail;
      assert s[0] !in tail;
      forall x | x in m ensures m[x] == 1 {
        if x != s[0] { assert m[x] == tail[x]; }
      }
      forall x, y | x in m && y in m && x.id == y.id ensures x == y {
        if x != s[0] && y != s[0] { assert x in tail && y in tail; }
        else if x != s[0] { assert x in tail; }
        else if y != s[0] { assert y in tail; }
      }
    }
  }

  /** Adding an item whose id no item has yet keeps the items unique. */
  lemma AddFreshKeepsUnique(m: multiset<Item>, item: Item)
    requires UniqueBag(m)
    requires forall x :: x in m ==> x.id != item.id
    ensures UniqueBag(m + multiset{item})
  {
    assert item !in m;
  }

  /** A column's items are among the board's, with multiplicity. */
  lemma {:induction false} ColumnItemsOnBoard<T>(columns: seq<Column<T>>, i: nat)
    requires i < |columns|
    ensures multiset(columns[i].items) <= AllItems(columns)
  {
    if i > 0 {
      ColumnItemsOnBoard(columns[1..], i - 1);
    }
  }

  /** An element at two positions of a sequence occurs at least twice in it. */
  lemma TwiceInSeq<T>(s: seq<T>, j: nat, k: nat)
    requires j < k < |s| && s[j] == s[k]
    ensures multiset(s)[s[k]] >= 2
  {
    assert s == s[..k] + s[k..];
    assert s[..k][j] == s[k] && s[k..][0] == s[k];
    assert multiset(s)[s[k]] == multiset(s[..k])[s[k]] + multiset(s[k..])[s[k]];
  }
}
