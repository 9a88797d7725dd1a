# Kanban board drag-and-drop, in Dafny

This project models the core of a small React kanban board. The board is a list of columns, and each column
holds an ordered list of items. Items move by drag and drop, within a column or between columns, one at a time
or as a multi-selection. Two rules can refuse a move:

- the **column-pair rule**: with three or more columns, nothing may go from the first column to the third;
- the **parity rule**: an even-numbered item may not land directly before another even-numbered item.

Column and item ids are random `column<n>` / `item<n>` strings. They are kept unique by two registries of
issued ids.

The model has three parts:

- `src/App.js` is the current application. Its drop, drag-update, drag-start, click, add-item, add-column,
  default-board and restore handlers are the class `KanbanApp.App`. Each method is proved equal to a
  specification function:
  - `Session.DragEnd` for drops;
  - `Session.DragUpdate` for the live warnings;
  - `Selection.ClickItem` for clicks.

  The lemmas about those functions state what the handlers promise: vetoes keep the board, drops conserve
  items, the live warnings agree with the drop verdict, and group moves have their shape. Item ids unique across
  the board, as the default board has them, stay unique under drops, added items and added columns.
- `src/utils/uuid.js` is the id generator. It is the class `Uuid.Registry`. Each call draws a suffix in
  0..99999 that is not yet registered, and the model proves there are exactly 100000 such suffixes per prefix.
- `index.js` is the earlier single-file board: two columns of ten cards, no numbers and no selection. It is
  the class `Legacy.LegacyBoard` with its own specification function `Legacy.LegacyDragEnd`. Its id generators
  (index.js:5-24) are the same code as src/utils/uuid.js with sets of their own, so the legacy board owns a
  second `Uuid.Registry`.

The modules are:

- `Splice`: JavaScript `splice` on sequences.
- `Board`: entities, `find`, and column updates.
- `Validator`: the two rules.
- `Reorder`: the group-move algorithms.
- `Selection`: the click handler.
- `Session`: the drop and drag-update semantics, with their lemmas.
- `KanbanApp`: the stateful application.
- `Legacy`: index.js.

Where the code and the design description of the project disagree, the model follows the code:

- **Numbering a new item.** An added item is numbered one past the **last** item of its column
  (App.js:517), not one past the largest number.
- **Cross-column group moves.** These also use `finalDestIndex`, with its `+1` when dragging towards higher
  indices (App.js:322, 358). The parity veto of that move inspects `destItems[destIndex]`, not the item at
  `finalDestIndex` (App.js:349).
- **Restoring a saved board.** This adds its ids to the registries without clearing them first
  (App.js:566-567). Only the default board resets them (App.js:524).

## Model

| member | source | states |
|---|---|---|
| Splice.InsertAt | src/App.js:246 | `splice(i, 0, ...xs)`: the prefix before `i` (clamped to the length), then `xs`, then the rest, length grows by `|xs|` |
| Splice.RemoveAt | src/App.js:263 | `splice(i, 1)`: one element fewer, the ones before `i` unchanged, the ones after shifted down by one |
| Splice.InsertAtMultiset | src/App.js:358 | an insertion adds exactly the inserted elements |
| Splice.RemoveAtMultiset | src/App.js:375 | a removal takes out exactly `s[i]` |
| Splice.RestoreAfterRemove | src/App.js:278 | splicing the removed item back in at its old index restores the column (the veto undo) |
| Splice.RemoveAfterInsert | index.js:110 | taking an inserted element out where it landed gives back the sequence |
| Splice.Reposition | src/App.js:262-283 | defines the single-item move within a column: splice the item out at `from`, then back in at `to` |
| Splice.RepositionSpec | src/App.js:262-283 | a splice-out/splice-in move keeps length and elements, lands the item at `min(to, last)`, and the rest stays in order |
| Splice.RepositionInPlace | src/App.js:278 | moving an item to its own index changes nothing |
| Uuid.NatToString | src/utils/uuid.js:10 | the decimal text of the suffix: non-empty, one digit exactly below 10 |
| Uuid.NatToStringInjective | src/utils/uuid.js:10 | different suffixes give different texts |
| Uuid.CandidateIdInjective | src/utils/uuid.js:10 | `prefix + n` determines `n` |
| Uuid.CandidateCount | src/utils/uuid.js:10 | a generator can produce exactly 100000 distinct ids |
| Uuid.CanIssueIffNotFull | src/utils/uuid.js:9-16 | the retry loop can return exactly while some candidate is unregistered, in particular whenever fewer than 100000 ids are registered |
| Uuid.CanIssueWhenRoom | src/utils/uuid.js:20-27 | fewer than 100000 registered ids always leave room |
| Uuid.Registry.constructor | src/utils/uuid.js:4-5 | both id sets start empty |
| Uuid.Registry.GenerateColumnId | src/utils/uuid.js:9-16 | returns a `column<n>` id with `n < 100000` that was not registered and registers it, item ids untouched |
| Uuid.Registry.GenerateColumnItemId | src/utils/uuid.js:20-27 | the same for `item<n>` ids |
| Uuid.Registry.InsertColumnIds | src/utils/uuid.js:31-33 | every given id is registered afterwards, nothing else is added or removed |
| Uuid.Registry.InsertColumnItemIds | src/utils/uuid.js:36-39 | the same for item ids |
| Uuid.Registry.ResetAllSets | src/utils/uuid.js:43-46 | both sets are emptied |
| Board.FindColumn | src/App.js:200 | `find` by id: the first column with that id, or none when no column has it |
| Board.SetItems | src/App.js:359-360 | writing one column's items changes that column only |
| Board.AllItemsUpdate | src/App.js:257 | replacing one column's items changes the board's items by exactly that column's difference |
| Board.AllItemsAppend | src/App.js:672 | appending a column adds its items to the board |
| Board.ColumnIdsUpdate | src/App.js:257 | rewriting items keeps the column ids |
| Board.UniqueIdsBag | src/App.js:135-140 | items under distinct ids, as `getItems` makes them, occur once each and no two share an id |
| Board.AddFreshKeepsUnique | src/App.js:513-519 | adding an item under an id no item on the board has keeps ids unique across the board |
| Reorder.SelectionPart | src/App.js:213-222 | the selected (or unselected) items of the column, each one from the column with the right membership |
| Reorder.SelectionPartsSplit | src/App.js:215-222 | the selected and unselected parts together are exactly the column's items |
| Reorder.SelectionPartKeeps | src/App.js:215-222 | every item on the requested side is kept |
| Reorder.LastWithId | src/App.js:224-233 | the copy of the grabbed item is a selected item with its id, and none exists exactly when no item has that id |
| Reorder.LastWithIdIsLast | src/App.js:224-233 | the copy kept is the last selected item with the grabbed id: no later item has that id |
| Reorder.WithoutId | src/App.js:227-233 | the other selected items: exactly the selected items whose id is not the grabbed one |
| Reorder.GrabbedAndRest | src/App.js:227-234 | with unique ids, the grabbed item and the others together are the selected items |
| Reorder.GrabbedPresent | src/App.js:617 | a selected grabbed item reported at the source index is among the column's selected items |
| Reorder.FinalDestIndex | src/App.js:209 | defines `finalDestIndex`: one past the drop index when dragging towards higher indices, else the drop index |
| Reorder.GroupBlock | src/App.js:224-234 | defines the block of a group move: the grabbed item's copy first, then the other selected items in column order |
| Reorder.StripMoved | src/App.js:247-256 | defines the reduce that drops the original copies of selected items and keeps everything else in order |
| Reorder.GroupMoveWithin | src/App.js:246-256 | defines the same-column group move: splice the block in at `finalDestIndex`, then strip the originals |
| Reorder.GroupMoveAcrossSource | src/App.js:359 | defines the source column after a cross-column group move: its unselected items |
| Reorder.GroupMoveAcrossDest | src/App.js:358 | defines the destination column after a cross-column group move: the block spliced in at `finalDestIndex` |
| Reorder.GroupBlockSpec | src/App.js:234 | the block starts with the grabbed item, holds only selected items of the column, and with unique ids each exactly once |
| Reorder.StripMovedTagged | src/App.js:247-256 | the reduce keeps the unselected original items and every moved copy |
| Reorder.GroupMoveWithinShape | src/App.js:209-256 | a same-column group move yields the unselected items before `finalDestIndex`, the block, then the unselected items after it |
| Reorder.GroupMoveWithinKeepsOrder | src/App.js:246-256 | the unselected items keep their relative order |
| Reorder.GroupMoveWithinBlock | src/App.js:246-256 | the selected items afterwards are exactly the block, contiguous |
| Reorder.GroupMoveWithinConserves | src/App.js:246-256 | with unique ids the column keeps exactly its items |
| Reorder.GroupMoveWithinFrom | src/App.js:246-256 | every item afterwards was in the column |
| Reorder.GroupMoveAcrossSpec | src/App.js:322-360 | the source keeps exactly its unselected items, the destination gets the block at `finalDestIndex` clamped to its end, and with unique ids no item is gained or lost |
| Reorder.GroupMoveAcrossFrom | src/App.js:358-360 | the destination afterwards holds only its own items and the source's |
| Validator.PairDenied | src/App.js:297-302 | defines the column-pair rule: three or more columns, from the first to the third |
| Validator.ParityDenied | src/App.js:272-274 | defines the parity rule: an even item landing where an even item already sits |
| Validator.AdjacentIndex | src/App.js:454-455 | defines the live neighbour index: one past the drop index when dragging down within a column, else the drop index |
| Validator.LiveParityBlocked | src/App.js:452-488 | defines the live parity warning: an even dragged item over an even neighbour at the adjacent index |
| Validator.LiveMatchesDropWithin | src/App.js:453-466 | the live neighbour `destIndex + 1` when dragging down is the same item the drop checks after the splice-out |
| Selection.Without | src/App.js:501 | `filter(x => x !== id)`: exactly the other ids remain, without duplicates if there were none |
| Selection.ClickItem | src/App.js:492-505 | defines the click handler's new selection state |
| Selection.DragDisabled | src/App.js:617 | defines `isDragDisabled`: something is selected and this item is not |
| Selection.ClickItemSpec | src/App.js:492-505 | a click in another column starts a singleton selection there; in the current column it toggles just the clicked item; no duplicates arise |
| Session.DropWithin | src/App.js:197-288 | defines a drop inside one column, single or group, with its parity veto |
| Session.DropAcross | src/App.js:305-398 | defines a drop between two columns, single or group, with its parity veto |
| Session.DragEnd | src/App.js:178-400 | defines `onDragEnd`: cancel, find the columns, apply the pair rule, then `DropWithin` or `DropAcross` |
| Session.DragUpdate | src/App.js:423-490 | defines `onDragUpdate`: the two live warnings for the current hover position |
| Session.DropWithinVetoKeepsBoard | src/App.js:237-244 | a refused same-column drop keeps the columns |
| Session.DropAcrossVetoKeepsBoard | src/App.js:348-355 | a refused cross-column drop keeps the columns |
| Session.DragEndVetoKeepsBoard | src/App.js:178-400 | cancelled drags and missing columns change nothing, a pair veto only clears `containerBlocked`, and only a committed move changes the columns |
| Session.PairRuleRefusesFirstToThird | src/App.js:297-302 | any drop from the first column to the third of a board of three or more is refused with the board untouched |
| Session.DropWithinConserves | src/App.js:197-288 | with unique ids a same-column drop neither gains nor loses an item |
| Session.DropAcrossConserves | src/App.js:305-398 | with unique ids in the source, what leaves the source arrives in the destination |
| Session.DragEndConservesItems | src/App.js:178-400 | with unique ids in every column, no drop gains or loses an item |
| Session.BoardUniqueColumns | src/App.js:178-400 | ids unique across the board are unique within each column, which is what the conservation lemmas ask |
| Session.DragEndKeepsBoardUnique | src/App.js:178-400 | on a board with unique ids, no drop gains or loses an item, so ids stay unique |
| Session.DropWithinSingleMoves | src/App.js:262-285 | a committed single drop puts the item at the drop index (last place when past the end) and keeps the rest in order |
| Session.DropAcrossSingleMoves | src/App.js:374-396 | a committed single drop removes the item from its column and inserts it at the drop index of the other, everything else in order |
| Session.DropWithinGroupMoves | src/App.js:207-260 | a committed same-column group drop keeps the unselected items in order and gathers the selected ones into one block, grabbed item first |
| Session.DropAcrossGroupMoves | src/App.js:321-364 | a committed cross-column group drop leaves the source its unselected items and places the block at `finalDestIndex` |
| Session.DropInPlaceKeepsBoard | src/App.js:262-285 | a single item dropped on its own position leaves the board as it was, vetoed or not |
| Session.GroupInPlaceEvenGrabbedVetoed | src/App.js:237-244 | a group dropped where it was grabbed is refused whenever the grabbed number is even |
| Session.LiveItemBlockedMatchesDrop | src/App.js:452-488 | for a real move the pair rule lets through, `itemBlocked` is set exactly when the drop will be refused by the parity rule |
| Session.LiveContainerBlockedMatchesDrop | src/App.js:435-442 | between different columns of a board of three or more, `containerBlocked` is set exactly when the drop will be refused by the pair rule |
| Session.DropWithinInventsNothing | src/App.js:197-288 | every item after a same-column drop was on the board before; column ids unchanged |
| Session.DropAcrossInventsNothing | src/App.js:305-398 | the same for a cross-column drop |
| Session.DragEndInventsNothing | src/App.js:178-400 | no drop creates an item or a column, without any assumption about ids |
| KanbanApp.ItemContent | src/App.js:146 | defines an item's text: `List{num} Item{number}` |
| KanbanApp.NextNumber | src/App.js:513-518 | defines the number of an added item: one past the last item's, or 1 in an empty column |
| KanbanApp.ItemContentDistinct | src/App.js:146 | items of one column with different numbers get different contents |
| KanbanApp.MadeItemsExtend | src/App.js:135-140 | appending the next item under an unused id keeps the list as `getItems` makes it |
| KanbanApp.CollectSelection | src/App.js:213-222 | the filter-with-push loop returns exactly the selected part and the unselected part |
| KanbanApp.SplitGrabbed | src/App.js:224-233 | the forEach loop returns the last copy of the grabbed item and the other selected items in order |
| KanbanApp.StripMovedFlags | src/App.js:247-256 | the reduce loop computes the stripped column |
| KanbanApp.ItemIdListCovers | src/App.js:558-565 | every item id on a restored board is in the collected list |
| KanbanApp.CollectIds | src/App.js:556-565 | the two nested loops collect every column id and every item id, column by column |
| KanbanApp.AppendKeepsRegistered | src/App.js:507-521 | appending an item under a registered id keeps every item on the board registered |
| KanbanApp.AppendKeepsUnique | src/App.js:507-521 | appending an item under an unregistered id keeps ids unique across a registered board |
| KanbanApp.AppendAddsItem | src/App.js:513-519 | appending an item to a column adds exactly that item to the board |
| KanbanApp.AppendNextKeepsOrder | src/App.js:513-518 | appending the next number keeps a column numbered 1, 2, 3, ... |
| KanbanApp.DefaultBoardContents | src/App.js:525-545 | the default board has four distinct columns whose items are exactly the first column's five |
| KanbanApp.App.constructor | src/App.js:151-165 | no columns, empty selection, no current column, no dragging id, no warnings |
| KanbanApp.App.OnDragStart | src/App.js:402-419 | clears both warnings and records the dragged id when there is a source |
| KanbanApp.App.OnDragUpdate | src/App.js:423-490 | the new state is `DragUpdate` of the old |
| KanbanApp.App.OnDragEnd | src/App.js:178-400 | the new state and outcome are `DragEnd` of the old; the dragging id is cleared; every id stays registered; a board with unique ids keeps exactly its items |
| KanbanApp.App.RouteDrop | src/App.js:180-399 | the branches of the handler together compute `DragEnd` of the old state |
| KanbanApp.App.GroupDropWithin | src/App.js:207-260 | the in-place group move within a column equals `DropWithin` |
| KanbanApp.App.SingleDropWithin | src/App.js:261-287 | the splice-out, veto-undo or splice-in equals `DropWithin` |
| KanbanApp.App.GroupDropAcross | src/App.js:321-365 | the group move across columns equals `DropAcross` |
| KanbanApp.App.SingleDropAcross | src/App.js:366-397 | the single move across columns equals `DropAcross` |
| KanbanApp.App.OnClickItem | src/App.js:492-505 | the new selection is `ClickItem` of the old; the board is unchanged |
| KanbanApp.App.GetItem | src/App.js:143-149 | an item numbered `count + 1` with its content under a freshly registered id |
| KanbanApp.App.GetItems | src/App.js:135-140 | `count` items numbered 1 to `count` with their contents, distinct fresh ids, all registered |
| KanbanApp.App.AddItemButton | src/App.js:507-521 | appends one item numbered after the last, with its content and a fresh id, which is the only id added to the registry; other columns, selection and warnings untouched; numbering in order, registration and board-wide unique ids preserved |
| KanbanApp.App.AddColumn | src/App.js:665-674 | appends an empty column under a fresh, registered id not used by any column; items, selection and warnings untouched |
| KanbanApp.App.SetupDefaultColumns | src/App.js:523-546 | resets both registries and builds the default board with unique ids; the registries hold exactly its ids; selection and warnings untouched |
| KanbanApp.App.BuildDefaultBoard | src/App.js:525-545 | from empty registries, the four-column default board with unique ids, registering exactly its ids |
| KanbanApp.App.TrailingColumnIds | src/App.js:531-543 | three more column ids, distinct from each other and from the first |
| KanbanApp.App.InitializeColumns | src/App.js:547-573 | a saved board is restored as is and all its ids are added to the registries; with nothing readable, the default board, whose item ids are exactly the registered ones and unique; afterwards every id on the board is registered; selection and warnings untouched |
| Legacy.MadeCardsExtend | index.js:28-32 | appending the next card under an unused id keeps the cards as `getItems` makes them |
| Legacy.LegacyDragEnd | index.js:48-116 | defines the legacy `onDragEnd`: cancel, same-column move, pair veto, or cross-column move with the card lost when the destination is missing |
| Legacy.IssuedExtend | index.js:28-32 | issuing one more fresh id keeps the issued ids exactly those of the cards made so far |
| Legacy.LegacyVetoKeepsBoard | index.js:50-97 | a cancelled drag, a missing source column or a pair veto leaves the board untouched |
| Legacy.LegacyPairRuleRefusesFirstToThird | index.js:86-90 | with three or more columns a card never goes from the first column to the third |
| Legacy.LegacyMissingDestinationLosesCard | index.js:100-107 | when the destination column is missing, the card has already been spliced out and is lost from the board |
| Legacy.LegacyDragEndConserves | index.js:48-116 | every drop keeps the column ids and never adds a card; only a missing destination loses one, exactly one |
| Legacy.LegacyCrossMovePlacesCard | index.js:100-112 | a completed cross-column move lands the card at the drop index and is undone by the inverse splices |
| Legacy.LegacyWithinMovePlacesCard | index.js:63-75 | a same-column move keeps the column's cards and lands the card at the drop index |
| Legacy.GetCards | index.js:28-32 | `count` cards with texts `item{num} 0`, ..., distinct fresh ids, all registered |
| Legacy.LegacyBoard.constructor | index.js:35-45 | two columns with distinct ids of ten cards each, ids distinct across columns, all registered |
| Legacy.LegacyBoard.OnDragEnd | index.js:48-116 | the new board and outcome are `LegacyDragEnd` of the old; every id stays registered |
| Legacy.LegacyBoard.CrossDrop | index.js:92-112 | the cross-column part equals `LegacyDragEnd` |
| Legacy.LegacyBoard.AddItem | index.js:159-177 | a found column gets a `TestItem` card under a fresh id appended; an unknown column changes nothing |
| Legacy.LegacyBoard.AddColumn | index.js:189-199 | appends an empty column under a fresh id |

## Left out

- Rendering is not modelled: styles, `getItemStyle`, the message boxes and the toast with its two-second
  `setTimeout` (App.js:157-163). These are presentation only.
- Local storage is not modelled. Saving (App.js:167-170) and reset (App.js:172-176) are browser I/O. The
  restore in `KanbanApp.App.InitializeColumns` takes the parsed board as a parameter: `None` stands for no
  data, an empty string, or a parse error. A JSON board without an `items` array, where the restore throws
  and falls back to the defaults, is not represented.
- `Math.random` is a nondeterministic choice of a free suffix. The recursive retry that loops forever when
  all 100000 ids are taken becomes the precondition `CanIssue`.
- `alert()` and the early `return`s of the drop handlers are the `Outcome` value they lead to.
- Object aliasing is modelled on values. The handlers splice the items arrays that the React state shares,
  and the model writes the resulting items back into the column value. For index.js this is why a missing
  destination loses the card.
- React's batched `setState` is not modelled. The setters take effect in order, so the final state is the
  same.
- The guards that replace missing or non-array items with `[]` (App.js:510-512, index.js:166-168) are not
  modelled. In the model every column has a sequence of items, so they cannot fire.
- KanbanApp.App.OnDragEnd: requires what the drag library and `isDragDisabled` guarantee. When the source
  column exists, the source index is inside it and holds the grabbed item, and the grabbed item is draggable.
  The source does not check any of this, and outside it the source would read `undefined`.
- KanbanApp.App.OnDragUpdate: requires both columns to exist and the source index to be in range. The source
  dereferences them unchecked and would throw.
- Legacy.LegacyBoard.OnDragEnd: requires the source index to lie inside an existing source column. Out of
  range, `splice` would insert `undefined` into the destination.
- KanbanApp.App.GetItems: requires room for `count` more ids. That is sufficient for the retries to end,
  not necessary.
- Item numbers and indices are mathematical integers. JavaScript numbers are doubles, but no value here
  approaches 2^53.
- Item ids unique across the board (`Board.BoardUnique`) are established by the default board and kept by
  every drop, every added item and every added column. A restored board need not satisfy it: nothing checks
  the saved ids. On such a board `Session.DragEndConservesItems` still holds while every column has unique
  ids, but a cross-column move can bring two items with one id into a column.
- Legacy.LegacyBoard.constructor: models one evaluation of the `useState` initializer (index.js:35-45). That
  initializer is not lazy, so React evaluates it on every render and discards the result. Each render
  registers two more column ids and twenty more item ids. Once the 100000 item ids are taken, the retry in
  `generateColumnItemId` (index.js:19-20, the same code as src/utils/uuid.js:22-23) recurses forever. The
  `console.log` of the payload (index.js:49) is not modelled either.
- `currentDraggingId` is `''` initially and `null` after a drop. Both are `None`, since the model reads them
  only for absence.
