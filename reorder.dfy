/** The group-move algorithm of src/App.js (lines 207-256 within a column, 320-364 across columns): the selected
    items of the source column are gathered, the grabbed one is put first, and the block is inserted at the
    drop position. */
module Reorder {
  import opened Splice
  import opened Board

  /** The items of `s` whose id is (`inSelection`) or is not (`!inSelection`) in `selected`, in column order:
      the `selectedItems` and `filteredSourceItems` arrays that the source's filter-with-push builds. */
  function SelectionPart(s: seq<Item>, selected: seq<string>, inSelection: bool): (r: seq<Item>)
    ensures |r| <= |s|
    ensures forall x :: x in r ==> x in s && (x.id in selected) == inSelection
  {
    if s == [] then []
    else (if (s[0].id in selected) == inSelection then [s[0]] else []) + SelectionPart(s[1..], selected, inSelection)
  }

  lemma {:induction false} SelectionPartConcat(a: seq<Item>, b: seq<Item>, selected: seq<string>, inSelection: bool)
    ensures SelectionPart(a + b, selected, inSelection)
            == SelectionPart(a, selected, inSelection) + SelectionPart(b, selected, inSelection)
  {
    if a != [] {
      assert (a + b)[1..] == a[1..] + b;
      SelectionPartConcat(a[1..], b, selected, inSelection);
    } else {
      assert a + b == b;
    }
  }

  lemma SelectionPartSnoc(s: seq<Item>, x: Item, selected: seq<string>, inSelection: bool)
    ensures SelectionPart(s + [x], selected, inSelection)
            == SelectionPart(s, selected, inSelection) + if (x.id in selected) == inSelection then [x] else []
  {
    SelectionPartConcat(s, [x], selected, inSelection);
    assert [x][1..] == [];
  }

  /** Every item on the requested side of the selection is kept. */
  lemma {:induction false} SelectionPartKeeps(s: seq<Item>, selected: seq<string>, inSelection: bool, x: Item)
    requires x in s && (x.id in selected) == inSelection
    ensures x in SelectionPart(s, selected, inSelection)
  {
    if s[0] != x {
      SelectionPartKeeps(s[1..], selected, inSelection, x);
    }
  }

  /** The two parts together hold exactly the column's items. */
  lemma {:induction false} SelectionPartsSplit(s: seq<Item>, selected: seq<string>)
    ensures multiset(SelectionPart(s, selected, true)) + multiset(SelectionPart(s, selected, false)) == multiset(s)
  {
    if s != [] {
      SelectionPartsSplit(s[1..], selected);
      var inPart, outPart := SelectionPart(s[1..], selected, true), SelectionPart(s[1..], selected, false);
      assert s == [s[0]] + s[1..];
      if s[0].id in selected {
        assert SelectionPart(s, selected, true) == [s[0]] + inPart;
        assert SelectionPart(s, selected, false) == outPart;
      } else {
        assert SelectionPart(s, selected, true) == inPart;
        assert SelectionPart(s, selected, false) == [s[0]] + outPart;
      }
    }
  }

  /** A part taken from items that all lie on one side of the selection is everything or nothing. */
  lemma {:induction false} SelectionPartUniform(s: seq<Item>, selected: seq<string>, inSelection: bool)
    requires forall x :: x in s ==> (x.id in selected) == inSelection
    ensures SelectionPart(s, selected, inSelection) == s
    ensures SelectionPart(s, selected, !inSelection) == []
  {
    if s != [] {
      SelectionPartUniform(s[1..], selected, inSelection);
    }
  }

  lemma {:induction false} SelectionPartUnique(s: seq<Item>, selected: seq<string>, inSelection: bool)
    requires UniqueIds(s)
    ensures UniqueIds(SelectionPart(s, selected, inSelection))
  {
    if s != [] {
      SelectionPartUnique(s[1..], selected, inSelection);
    }
  }

  /** The copy of the grabbed item the group move keeps. The loop overwrites it on every item whose id matches,
      so it is the last such item. */
  function LastWithId(s: seq<Item>, id: string): (r: Option<Item>)
    ensures r.Some? ==> r.value in s && r.value.id == id
    ensures r.None? ==> forall x :: x in s ==> x.id != id
  {
    if s == [] then None
    else match LastWithId(s[1..], id)
      case Some(x) => Some(x)
      case None => if s[0].id == id then Some(s[0]) else None
  }

  /** The selected items other than the grabbed one, in column order. */
  function WithoutId(s: seq<Item>, id: string): (r: seq<Item>)
    ensures |r| <= |s|
    ensures forall x :: x in r ==> x in s && x.id != id
    ensures forall x :: x in s && x.id != id ==> x in r
  {
    if s == [] then [] else (if s[0].id != id then [s[0]] else []) + WithoutId(s[1..], id)
  }

  /** The copy kept is the last item with the grabbed id: no item after it has that id. */
  lemma {:induction false} LastWithIdIsLast(s: seq<Item>, id: string)
    requires LastWithId(s, id).Some?
    ensures exists k :: 0 <= k < |s| && s[k] == LastWithId(s, id).value && forall j :: k < j < |s| ==> s[j].id != id
  {
    var rest := s[1..];
    match LastWithId(rest, id)
    case Some(x) =>
      LastWithIdIsLast(rest, id);
      var k :| 0 <= k < |rest| && rest[k] == x && forall j :: k < j < |rest| ==> rest[j].id != id;
      assert s[k + 1] == x;
      forall j | k + 1 < j < |s| ensures s[j].id != id {
        assert s[j] == rest[j - 1];
      }
    case None =>
      forall j | 0 < j < |s| ensures s[j].id != id {
        assert s[j] in rest by { assert s[j] == rest[j - 1]; }
      }
  }

  lemma {:induction false} LastWithIdSnoc(s: seq<Item>, x: Item, id: string)
    ensures LastWithId(s + [x], id) == if x.id == id then Some(x) else LastWithId(s, id)
  {
    if s == [] {
      assert ([] + [x])[1..] == [];
    } else {
      assert (s + [x])[1..] == s[1..] + [x];
      LastWithIdSnoc(s[1..], x, id);
    }
  }

  lemma {:induction false} WithoutIdConcat(a: seq<Item>, b: seq<Item>, id: string)
    ensures WithoutId(a + b, id) == WithoutId(a, id) + WithoutId(b, id)
  {
    if a != [] {
      assert (a + b)[1..] == a[1..] + b;
      WithoutIdConcat(a[1..], b, id);
    } else {
      assert a + b == b;
    }
  }

  lemma WithoutIdSnoc(s: seq<Item>, x: Item, id: string)
    ensures WithoutId(s + [x], id) == WithoutId(s, id) + if x.id != id then [x] else []
  {
    WithoutIdConcat(s, [x], id);
    assert [x][1..] == [];
  }

  /** In a sequence with unique ids that holds the grabbed item, the grabbed item and the rest are all of it. */
  lemma {:induction false} GrabbedAndRest(s: seq<Item>, id: string)
    requires UniqueIds(s)
    requires LastWithId(s, id).Some?
    ensures multiset{LastWithId(s, id).value} + multiset(WithoutId(s, id)) == multiset(s)
  {
    assert s == [s[0]] + s[1..];
    if s[0].id == id {
      assert forall x :: x in s[1..] ==> x.id != id;
      WithoutIdAll(s[1..], id);
    } else {
      GrabbedAndRest(s[1..], id);
    }
  }

  lemma {:induction false} WithoutIdAll(s: seq<Item>, id: string)
    requires forall x :: x in s ==> x.id != id
    ensures WithoutId(s, id) == s
  {
    if s != [] {
      WithoutIdAll(s[1..], id);
    }
  }

  /** A group move needs the grabbed item among the column's selected items; the drag library reports the
      grabbed item at the source index, and a non-empty selection only lets its own members be dragged. */
  predicate HasGrabbed(s: seq<Item>, selected: seq<string>, grabbed: string)
  {
    LastWithId(SelectionPart(s, selected, true), grabbed).Some?
  }

  /** The drag library reports the grabbed item at the source index; if the grabbed id is selected, the group
      move finds it. */
  lemma GrabbedPresent(s: seq<Item>, selected: seq<string>, sourceIndex: nat, grabbed: string)
    requires sourceIndex < |s| && s[sourceIndex].id == grabbed && grabbed in selected
    ensures HasGrabbed(s, selected, grabbed)
  {
    SelectionPartKeeps(s, selected, true, s[sourceIndex]);
  }

  /** The block a group move inserts: the grabbed item first, then the other selected items in column order. */
  function GroupBlock(s: seq<Item>, selected: seq<string>, grabbed: string): seq<Item>
    requires HasGrabbed(s, selected, grabbed)
  {
    var picked := SelectionPart(s, selected, true);
    [LastWithId(picked, grabbed).value] + WithoutId(picked, grabbed)
  }

  /** The block starts with the grabbed item, holds only selected items of the column, and (ids being unique)
      holds each selected item exactly once. */
  lemma GroupBlockSpec(s: seq<Item>, selected: seq<string>, grabbed: string)
    requires HasGrabbed(s, selected, grabbed)
    ensures GroupBlock(s, selected, grabbed)[0].id == grabbed
    ensures forall x :: x in GroupBlock(s, selected, grabbed) ==> x in s && x.id in selected
    ensures UniqueIds(s) ==> multiset(GroupBlock(s, selected, grabbed)) == multiset(SelectionPart(s, selected, true))
  {
    var picked := SelectionPart(s, selected, true);
    if UniqueIds(s) {
      SelectionPartUnique(s, selected, true);
      GrabbedAndRest(picked, grabbed);
    }
  }

  /** `finalDestIndex`: one past the hovered index when dragging towards higher indices. */
  function FinalDestIndex(sourceIndex: nat, destIndex: nat): nat
  {
    if sourceIndex < destIndex then destIndex + 1 else destIndex
  }

  /** An entry of the temporary array of the within-column group move: the copies in the block carry the
      `moved` flag, the column's own items do not. */
  datatype Slot = Slot(item: Item, moved: bool)

  function Tag(s: seq<Item>, moved: bool): (r: seq<Slot>)
    ensures |r| == |s|
    ensures forall i :: 0 <= i < |s| ==> r[i] == Slot(s[i], moved)
  {
    if s == [] then [] else [Slot(s[0], moved)] + Tag(s[1..], moved)
  }

  /** The `reduce` of App.js:247-256: a selected item without the flag is an old occurrence and is dropped;
      every other entry is kept and its flag deleted. */
  function StripMoved(t: seq<Slot>, selected: seq<string>): seq<Item>
  {
    if t == [] then []
    else (if t[0].item.id in selected && !t[0].moved then [] else [t[0].item]) + StripMoved(t[1..], selected)
  }

  lemma {:induction false} StripMovedConcat(a: seq<Slot>, b: seq<Slot>, selected: seq<string>)
    ensures StripMoved(a + b, selected) == StripMoved(a, selected) + StripMoved(b, selected)
  {
    if a != [] {
      assert (a + b)[1..] == a[1..] + b;
      StripMovedConcat(a[1..], b, selected);
    } else {
      assert a + b == b;
    }
  }

  lemma StripMovedSnoc(t: seq<Slot>, x: Slot, selected: seq<string>)
    ensures StripMoved(t + [x], selected) == StripMoved(t, selected) + if x.item.id in selected && !x.moved then [] else [x.item]
  {
    StripMovedConcat(t, [x], selected);
    assert [x][1..] == [];
  }

  /** Stripping the column's own items keeps just the unselected ones; stripping the flagged block keeps all of it. */
  lemma {:induction false} StripMovedTagged(s: seq<Item>, selected: seq<string>, moved: bool)
    ensures StripMoved(Tag(s, moved), selected) == if moved then s else SelectionPart(s, selected, false)
  {
    if s != [] {
      assert Tag(s, moved)[1..] == Tag(s[1..], moved);
      StripMovedTagged(s[1..], selected, moved);
    }
  }

  /** The new items of the column after a group move within it (App.js:246-256). */
  function GroupMoveWithin(s: seq<Item>, selected: seq<string>, grabbed: string, sourceIndex: nat, destIndex: nat)
    : seq<Item>
    requires HasGrabbed(s, selected, grabbed)
  {
    var block := GroupBlock(s, selected, grabbed);
    StripMoved(InsertAt(Tag(s, false), FinalDestIndex(sourceIndex, destIndex), Tag(block, true)), selected)
  }

  /** After a group move within a column, the column is its unselected items before the insertion point, then the
      block, then its unselected items after it; the block is applied at `finalDestIndex` of the unfiltered column. */
  lemma GroupMoveWithinShape(s: seq<Item>, selected: seq<string>, grabbed: string, sourceIndex: nat, destIndex: nat)
    requires HasGrabbed(s, selected, grabbed)
    ensures var k := Min(FinalDestIndex(sourceIndex, destIndex), |s|);
            GroupMoveWithin(s, selected, grabbed, sourceIndex, destIndex)
            == SelectionPart(s[..k], selected, false) + GroupBlock(s, selected, grabbed) + SelectionPart(s[k..], selected, false)
  {
    var k := Min(FinalDestIndex(sourceIndex, destIndex), |s|);
    var block := GroupBlock(s, selected, grabbed);
    var tagged := Tag(s, false);
    assert tagged[..k] == Tag(s[..k], false);
    assert tagged[k..] == Tag(s[k..], false);
    assert InsertAt(tagged, FinalDestIndex(sourceIndex, destIndex), Tag(block, true))
           == Tag(s[..k], false) + Tag(block, true) + Tag(s[k..], false);
    StripMovedConcat(Tag(s[..k], false) + Tag(block, true), Tag(s[k..], false), selected);
    StripMovedConcat(Tag(s[..k], false), Tag(block, true), selected);
    StripMovedTagged(s[..k], selected, false);
    StripMovedTagged(block, selected, true);
    StripMovedTagged(s[k..], selected, false);
  }

  /** Splitting a sequence laid out as unselected items, a block of selected items, unselected items. */
  lemma PartsOfLayout(before: seq<Item>, block: seq<Item>, after: seq<Item>, selected: seq<string>)
    requires forall x :: x in before ==> x.id !in selected
    requires forall x :: x in block ==> x.id in selected
    requires forall x :: x in after ==> x.id !in selected
    ensures SelectionPart(before + block + after, selected, false) == before + after
    ensures SelectionPart(before + block + after, selected, true) == block
  {
    var ab := before + block;
    SelectionPartUniform(before, selected, false);
    SelectionPartUniform(block, selected, true);
    SelectionPartUniform(after, selected, false);
    SelectionPartConcat(before, block, selected, false);
    SelectionPartConcat(before, block, selected, true);
    assert SelectionPart(ab, selected, false) == before;
    assert SelectionPart(ab, selected, true) == block;
    SelectionPartConcat(ab, after, selected, false);
    SelectionPartConcat(ab, after, selected, true);
  }

  lemma SelectionPartSplitAt(s: seq<Item>, selected: seq<string>, inSelection: bool, k: nat)
    requires k <= |s|
    ensures SelectionPart(s, selected, inSelection)
            == SelectionPart(s[..k], selected, inSelection) + SelectionPart(s[k..], selected, inSelection)
  {
    assert s == s[..k] + s[k..];
    SelectionPartConcat(s[..k], s[k..], selected, inSelection);
  }

  /** After a group move within a column the unselected items keep their relative order. */
  lemma GroupMoveWithinKeepsOrder(s: seq<Item>, selected: seq<string>, grabbed: string, sourceIndex: nat, destIndex: nat)
    requires HasGrabbed(s, selected, grabbed)
    ensures SelectionPart(GroupMoveWithin(s, selected, grabbed, sourceIndex, destIndex), selected, false)
            == SelectionPart(s, selected, false)
  {
    var k := Min(FinalDestIndex(sourceIndex, destIndex), |s|);
    var block := GroupBlock(s, selected, grabbed);
    var before, after := SelectionPart(s[..k], selected, false), SelectionPart(s[k..], selected, false);
    GroupMoveWithinShape(s, selected, grabbed, sourceIndex, destIndex);
    GroupBlockSpec(s, selected, grabbed);
    PartsOfLayout(before, block, after, selected);
    SelectionPartSplitAt(s, selected, false, k);
  }

  /** After a group move within a column the selected items are exactly the block, and they stand together,
      right after the unselected items that preceded the insertion point. */
  lemma GroupMoveWithinBlock(s: seq<Item>, selected: seq<string>, grabbed: string, sourceIndex: nat, destIndex: nat)
    requires HasGrabbed(s, selected, grabbed)
    ensures var r := GroupMoveWithin(s, selected, grabbed, sourceIndex, destIndex);
            var p := |SelectionPart(s[..Min(FinalDestIndex(sourceIndex, destIndex), |s|)], selected, false)|;
            var block := GroupBlock(s, selected, grabbed);
            && SelectionPart(r, selected, true) == block
            && p + |block| <= |r| && r[p..p + |block|] == block
  {
    var k := Min(FinalDestIndex(sourceIndex, destIndex), |s|);
    var block := GroupBlock(s, selected, grabbed);
    var before, after := SelectionPart(s[..k], selected, false), SelectionPart(s[k..], selected, false);
    GroupMoveWithinShape(s, selected, grabbed, sourceIndex, destIndex);
    GroupBlockSpec(s, selected, grabbed);
    PartsOfLayout(before, block, after, selected);
    assert (before + block + after)[|before|..|before| + |block|] == block;
  }

  /** With unique ids a group move within a column keeps exactly the column's items, hence its length. */
  lemma GroupMoveWithinConserves(s: seq<Item>, selected: seq<string>, grabbed: string, sourceIndex: nat, destIndex: nat)
    requires HasGrabbed(s, selected, grabbed)
    requires UniqueIds(s)
    ensures multiset(GroupMoveWithin(s, selected, grabbed, sourceIndex, destIndex)) == multiset(s)
    ensures |GroupMoveWithin(s, selected, grabbed, sourceIndex, destIndex)| == |s|
  {
    var r := GroupMoveWithin(s, selected, grabbed, sourceIndex, destIndex);
    var k := Min(FinalDestIndex(sourceIndex, destIndex), |s|);
    var block := GroupBlock(s, selected, grabbed);
    var before, after := SelectionPart(s[..k], selected, false), SelectionPart(s[k..], selected, false);
    GroupMoveWithinShape(s, selected, grabbed, sourceIndex, destIndex);
    GroupBlockSpec(s, selected, grabbed);
    SelectionPartSplitAt(s, selected, false, k);
    SelectionPartsSplit(s, selected);
    calc {
      multiset(r);
      multiset(before) + multiset(block) + multiset(after);
      multiset(block) + multiset(before + after);
      multiset(SelectionPart(s, selected, true)) + multiset(SelectionPart(s, selected, false));
      multiset(s);
    }
    assert |r| == |multiset(r)|;
  }

  /** The source column after a group move to another column: its unselected items (App.js:359). */
  function GroupMoveAcrossSource(s: seq<Item>, selected: seq<string>): seq<Item>
  {
    SelectionPart(s, selected, false)
  }

  /** The destination column after a group move: the block spliced in at `finalDestIndex` (App.js:358). */
  function GroupMoveAcrossDest(s: seq<Item>, d: seq<Item>, selected: seq<string>, grabbed: string,
                               sourceIndex: nat, destIndex: nat): seq<Item>
    requires HasGrabbed(s, selected, grabbed)
  {
    InsertAt(d, FinalDestIndex(sourceIndex, destIndex), GroupBlock(s, selected, grabbed))
  }

  /** A group move across columns: the source keeps exactly its unselected items in order, the destination gets
      the block at `finalDestIndex` clamped to its end, and with unique ids no item is gained or lost over the two. */
  lemma GroupMoveAcrossSpec(s: seq<Item>, d: seq<Item>, selected: seq<string>, grabbed: string,
                            sourceIndex: nat, destIndex: nat)
    requires HasGrabbed(s, selected, grabbed)
    ensures var src := GroupMoveAcrossSource(s, selected);
            var dst := GroupMoveAcrossDest(s, d, selected, grabbed, sourceIndex, destIndex);
            var k := Min(FinalDestIndex(sourceIndex, destIndex), |d|);
            && (forall x :: x in src <==> x in s && x.id !in selected)
            && dst == d[..k] + GroupBlock(s, selected, grabbed) + d[k..]
            && (UniqueIds(s) ==> multiset(src) + multiset(dst) == multiset(s) + multiset(d)
                                 && |src| + |dst| == |s| + |d|)
  {
    var k := Min(FinalDestIndex(sourceIndex, destIndex), |d|);
    var block := GroupBlock(s, selected, grabbed);
    var dst := GroupMoveAcrossDest(s, d, selected, grabbed, sourceIndex, destIndex);
    assert dst == d[..k] + block + d[k..];
    forall x | x in s && x.id !in selected ensures x in GroupMoveAcrossSource(s, selected) {
      SelectionPartKeeps(s, selected, false, x);
    }
    if UniqueIds(s) {
      GroupBlockSpec(s, selected, grabbed);
      SelectionPartsSplit(s, selected);
      InsertAtMultiset(d, FinalDestIndex(sourceIndex, destIndex), block);
      assert |dst| == |multiset(dst)|;
    }
  }

  /** A group move within a column uses only the column's own items. */
  lemma GroupMoveWithinFrom(s: seq<Item>, selected: seq<string>, grabbed: string, sourceIndex: nat, destIndex: nat)
    requires HasGrabbed(s, selected, grabbed)
    ensures forall x :: x in GroupMoveWithin(s, selected, grabbed, sourceIndex, destIndex) ==> x in s
  {
    var k := Min(FinalDestIndex(sourceIndex, destIndex), |s|);
    var before, block, after := SelectionPart(s[..k], selected, false), GroupBlock(s, selected, grabbed),
                                SelectionPart(s[k..], selected, false);
    GroupMoveWithinShape(s, selected, grabbed, sourceIndex, destIndex);
    GroupBlockSpec(s, selected, grabbed);
    forall x | x in before + block + after ensures x in s {
      if x in before {
        assert x in s[..k];
      } else if x in after {
        assert x in s[k..];
      }
    }
  }

  /** A group move across columns fills the destination only with its own items and the source's. */
  lemma GroupMoveAcrossFrom(s: seq<Item>, d: seq<Item>, selected: seq<string>, grabbed: string,
                            sourceIndex: nat, destIndex: nat)
    requires HasGrabbed(s, selected, grabbed)
    ensures forall x :: x in GroupMoveAcrossDest(s, d, selected, grabbed, sourceIndex, destIndex) ==> x in d || x in s
  {
    GroupBlockSpec(s, selected, grabbed);
    var r := GroupMoveAcrossDest(s, d, selected, grabbed, sourceIndex, destIndex);
    InsertAtMultiset(d, FinalDestIndex(sourceIndex, destIndex), GroupBlock(s, selected, grabbed));
    forall x | x in r ensures x in d || x in s {
      assert x in multiset(d) + multiset(GroupBlock(s, selected, grabbed));
    }
  }
}
