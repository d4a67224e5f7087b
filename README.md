# IUP outline tree, menu helpers and Windows timer table in Dafny

This project models three parts of the IUP portable user-interface toolkit and proves what they
promise.

- **The Motif tree driver** (`src/mot/iupmot_tree.c`). The driver shows an IUP tree as the
  outline items of a Motif container.
  - The model strips the widget calls and keeps an ordered forest of items (module
    `OutlineTree`).
    - Each item has a kind (branch or leaf), an outline state (expanded or collapsed), a mark,
      a title, user data and children.
    - The container's first top-level item is the IUP root. An item is named by its path of
      child indices.
  - Over this forest the model states:
    - the pre-order walk that gives node ids, and the visible walk used by keyboard
      navigation;
    - the item visitors (select, invert, range) and the bulk passes (module `OutlineMarks`);
    - the structural edits: insert, remove, replace, the unmarked copy a move makes, and the
      pruning of marked items (module `OutlineEdit`);
    - what every attribute handler computes (module `MotTreeSpec`).
  - Module `MotTree` is the driver itself:
    - a `Tree` class whose fields are the items, the shared id counter `id_control`, the focus,
      the BLOCK start, the mark mode and the recorded VALUE id;
    - the recursive searches, which advance the counter step by step;
    - the while loops over child lists;
    - the handlers for MARK, VALUE, MARKSTART, EXPANDALL, ADD/INSERT, MOVENODE, DELNODE, COUNT,
      DEPTH and CHILDCOUNT.
  - Each method is proved against the function of `MotTreeSpec` that states its effect.
- **The menu helpers** (`src/iup_menu.c`, module `Menu`):
  - the walk to the top menu along parent links;
  - the child-id counter on the top menu (100, 101, ...) and the `iup-<class>-<id>` name built
    from it;
  - the menu-bar test;
  - the popup position sentinels;
  - the `&` mnemonic that KEY inserts into a title;
  - the Create methods and the class descriptors of separator, item, submenu and menu.
- **The Windows timer table** (`src/win/iupwin_timer.c`, module `WinTimer`). A driver class
  holds the process-wide table from system timer ids to timer elements.
  - Run, Stop, the timer message handler, class initialisation and release are its methods.
  - Its invariant keeps the table and every timer's `serial` in step.

`Wrappers` holds the `Option` type.

## Model

| member | source | states |
|---|---|---|
| OutlineTree.LastVisible | src/mot/iupmot_tree.c:225-241 | descending into the last child while an item is expanded reaches the last entry of the visible walk |
| OutlineTree.PreLength | src/mot/iupmot_tree.c:1188-1198 | the id walk of a sub-tree has exactly as many entries as the sub-tree has items |
| OutlineTree.WalkDistinct | src/mot/iupmot_tree.c:579-617 | no walk meets an item twice, so each item has one id and one visible position |
| OutlineTree.WalkInside | src/mot/iupmot_tree.c:57-85 | every item a walk meets lies inside the walked sub-tree |
| OutlineTree.WalkNamesItems | src/mot/iupmot_tree.c:619-657 | every entry of a walk names an item of the sub-tree |
| OutlineTree.ItemsHaveIds | src/mot/iupmot_tree.c:579-617 | every item of the sub-tree has an entry in the id walk |
| OutlineTree.AllOpenAllVisible | src/mot/iupmot_tree.c:243-285 | when every item with children is expanded, the visible walk is the id walk |
| OutlineTree.IndexOf | src/mot/iupmot_tree.c:579-617 | the position a search stops at holds the item and no earlier entry does |
| OutlineTree.IndexOfSplit | src/mot/iupmot_tree.c:579-617 | a search through two parts finds a hit in the first part there, otherwise in the second part offset by the first's length |
| OutlineTree.IndexOfDistinct | src/mot/iupmot_tree.c:659-665 | in a walk without repeats, the id of the i-th entry is i |
| OutlineTree.NavStepBack | src/mot/iupmot_tree.c:331-357 | stepping forward and back by the same amount returns to the start when the first step is not clamped |
| OutlineTree.IdRoundTrip | src/mot/iupmot_tree.c:619-665 | looking up the id of an entry gives back that entry |
| OutlineTree.IdLookupInverse | src/mot/iupmot_tree.c:619-665 | an id names an entry iff it is below the walk's length; for ids 0 to length-1, the entry's id is the one looked up |
| OutlineEdit.InsertSize | src/mot/iupmot_tree.c:740-838 | inserting a sub-tree adds exactly its items |
| OutlineEdit.RemoveSize | src/mot/iupmot_tree.c:567-578 | removing a sub-tree takes away exactly its items |
| OutlineEdit.ReplaceSize | src/mot/iupmot_tree.c:541-565 | replacing a sub-tree changes the size by the difference of the two |
| OutlineEdit.InsertPlaces | src/mot/iupmot_tree.c:740-838 | the inserted sub-tree sits at the chosen child slot |
| OutlineEdit.InsertKeeps | src/mot/iupmot_tree.c:740-838 | every item other than the insertion parent and its ancestors keeps its sub-tree, at its shifted path |
| OutlineEdit.RemoveKeeps | src/mot/iupmot_tree.c:567-578 | every item neither inside the removed sub-tree nor above it keeps its sub-tree, at its unshifted path |
| OutlineEdit.ReplacePlaces | src/mot/iupmot_tree.c:541-565 | after a replacement the new sub-tree stands at the path |
| OutlineEdit.InsertShaped | src/mot/iupmot_tree.c:740-838 | inserting a well-shaped sub-tree under a branch keeps only branches holding children |
| OutlineEdit.RemoveShaped | src/mot/iupmot_tree.c:567-578 | removing a sub-tree keeps the tree well shaped |
| OutlineEdit.ReplaceShaped | src/mot/iupmot_tree.c:541-565 | replacing an item by a well-shaped one keeps the tree well shaped |
| OutlineEdit.SameFrameWalk | src/mot/iupmot_tree.c:506-528 | trees that differ only in marks and outline states have the same size, id walk and shape |
| OutlineEdit.UnmarkedCopies | src/mot/iupmot_tree.c:87-136 | the copy keeps kind, state, title, user data and structure, and no copied item is marked |
| OutlineEdit.UnmarkedFirst | src/mot/iupmot_tree.c:138-156 | the copy of a sibling list has one entry per sibling, and entry k is the unmarked copy of sibling k |
| OutlineEdit.PruneClears | src/mot/iupmot_tree.c:1548-1567 | after pruning no descendant is marked |
| OutlineEdit.PruneUnmarked | src/mot/iupmot_tree.c:1548-1567 | pruning a sub-tree without marked descendants changes nothing |
| OutlineEdit.PruneShaped | src/mot/iupmot_tree.c:1548-1567 | pruning keeps the tree well shaped, the item's kind and at most its size |
| OutlineEdit.PruneFirstLength | src/mot/iupmot_tree.c:1553-1569 | pruning a sibling list keeps as many siblings as are unmarked |
| OutlineEdit.PruneFirstAt | src/mot/iupmot_tree.c:1553-1569 | an unmarked sibling, pruned, stands after the unmarked siblings before it |
| OutlineEdit.PruneFirstKeeps | src/mot/iupmot_tree.c:1553-1569 | pruning a sibling list keeps as many siblings as are unmarked, and each unmarked sibling, itself pruned, stands after the unmarked siblings before it |
| OutlineEdit.PruneKeeps | src/mot/iupmot_tree.c:1553-1569 | a pruned item keeps its own fields and, of its children, exactly the unmarked ones, each pruned, in their order |
| OutlineEdit.InsertChildren | src/mot/iupmot_tree.c:158-187 | after an insertion the parent holds its former children with the new item put in at the chosen position |
| OutlineEdit.ShiftReflectsPrefix | src/mot/iupmot_tree.c:1146-1151 | an insertion does not nest two items that were apart: one shifted path lies inside another only if the paths did before |
| OutlineEdit.InsertAfterThenRemove | src/mot/iupmot_tree.c:1146-1151 | inserting a sub-tree right after an item and then removing the item leaves the new sub-tree in the item's place |
| OutlineMarks.VisitIsStepAll | src/mot/iupmot_tree.c:57-85 | the recursive visitor walk keeps every item in place and sets the marks the flat visitor sets along the id walk |
| OutlineMarks.ToggleAll | src/mot/iupmot_tree.c:458-462 | the invert visitor negates every mark |
| OutlineMarks.SetAll | src/mot/iupmot_tree.c:439-456 | the select visitor with 1 or 0 gives every item that mark |
| OutlineMarks.ToggleTwice | src/mot/iupmot_tree.c:458-462 | inverting twice gives back the original sub-tree |
| OutlineMarks.RangeMarks | src/mot/iupmot_tree.c:469-494 | an item ends up marked iff it is an endpoint, or one endpoint comes before it and the other does not yet, or (without clear) it was marked |
| OutlineMarks.RangeBetween | src/mot/iupmot_tree.c:464-504 | between two items of the walk, exactly the items from the earlier to the later endpoint are marked; the others are cleared only with clear |
| OutlineMarks.OutlinedFrame | src/mot/iupmot_tree.c:506-528 | the expand/collapse pass moves no item and touches no mark; expanding opens every item with children, collapsing closes them |
| OutlineMarks.ExpandAllShowsAll | src/mot/iupmot_tree.c:506-528 | after expanding all, the visible walk is the id walk |
| OutlineMarks.ClosedShowsSelf | src/mot/iupmot_tree.c:243-285 | a collapsed item or one without children shows only itself |
| OutlineMarks.CollapseAllShowsTop | src/mot/iupmot_tree.c:1592-1607 | collapsing all and expanding the root again shows exactly the root and its direct children |
| MotTreeSpec.FrameKeepsIds | src/mot/iupmot_tree.c:579-617 | containers that differ only in marks have the same ids and visible items |
| MotTreeSpec.LookupPast | src/mot/iupmot_tree.c:619-657 | a search by id that gets past one part continues in the next with the counter reduced by the part's length |
| MotTreeSpec.LookupWithin | src/mot/iupmot_tree.c:619-657 | a search by id that stops inside a part finds the same item in any longer walk |
| MotTreeSpec.LookupHead | src/mot/iupmot_tree.c:619-657 | a counter at or below zero stops at the first item and leaves the counter one lower |
| MotTreeSpec.ResolveIsItem | src/mot/iupmot_tree.c:676-686 | a node reference names an item, and one given by id names an item of the root sub-tree |
| MotTreeSpec.ResolveRoundTrip | src/mot/iupmot_tree.c:659-686 | an item of the root sub-tree, referred to by its id, is found again |
| MotTreeSpec.ResolveIds | src/mot/iupmot_tree.c:619-686 | an id names an item iff it is below COUNT; each id from 0 to COUNT-1 names the item whose id it is |
| MotTreeSpec.RevisitedFrame | src/mot/iupmot_tree.c:57-85 | a visitor pass changes only marks: the root sub-tree gets the flat visitor's marks and every item keeps its place |
| MotTreeSpec.InvertAllToggles | src/mot/iupmot_tree.c:458-462 | INVERTALL toggles every mark of the root sub-tree and leaves other items alone |
| MotTreeSpec.RangeMarksBetween | src/mot/iupmot_tree.c:496-504 | BLOCK marks exactly the items between the two endpoints in id order, whichever comes first; the others keep their marks unless clear is set |
| MotTreeSpec.SelectKeepsInside | src/mot/iupmot_tree.c:439-456 | the select visitor never changes the range flag |
| MotTreeSpec.SelectSetsEach | src/mot/iupmot_tree.c:439-456 | setting or clearing all marks gives every item of the sub-tree that mark |
| MotTreeSpec.MarkEveryMarks | src/mot/iupmot_tree.c:1235-1285 | CLEARALL and MARKALL keep every item in place and give every item the same mark |
| MotTreeSpec.ReplaceFrame | src/mot/iupmot_tree.c:1235-1285 | replacing an item by one with the same frame keeps the frame of the tree |
| MotTreeSpec.WithMarkSets | src/mot/iupmot_tree.c:1235-1285 | setting one item's mark sets that mark and no other |
| MotTreeSpec.MarkOnlyMarks | src/mot/iupmot_tree.c:1334-1372 | after clearing all marks and marking the focus, the focus is the one marked item |
| MotTreeSpec.MarkOutcomeFrame | src/mot/iupmot_tree.c:1235-1285 | a MARK value changes marks only, never places, ids or visibility; one that does not apply changes nothing |
| MotTreeSpec.InvertToggles | src/mot/iupmot_tree.c:1235-1285 | INVERT toggles the mark of the item it names and of no other |
| MotTreeSpec.NavTargetIsItem | src/mot/iupmot_tree.c:1296-1333 | every VALUE navigation lands on an item; the keyword moves land on a visible one in the root sub-tree |
| MotTreeSpec.NavBackAndForth | src/mot/iupmot_tree.c:331-357 | NEXT and PREVIOUS, and PGDN and PGUP, undo each other away from the ends of the visible items |
| MotTreeSpec.FocusMoveMarks | src/mot/iupmot_tree.c:1334-1372 | moving the focus changes no item's place or id; the new focus is an item, the recorded value is its id, and in single mode it is the one marked item |
| MotTreeSpec.AllOutlinedShows | src/mot/iupmot_tree.c:1592-1607 | EXPANDALL changes outline states only; yes shows every item, no shows the root and its children |
| MotTreeSpec.ExpandRootKeeps | src/mot/iupmot_tree.c:826-835 | setting the root expanded changes nothing but the root's state |
| MotTreeSpec.AddPointValid | src/mot/iupmot_tree.c:760-800 | the insertion point is a child slot of a branch or of the container |
| MotTreeSpec.ShiftNotRoot | src/mot/iupmot_tree.c:782-800 | an insertion never moves another item into the root's place |
| MotTreeSpec.AddedPlaces | src/mot/iupmot_tree.c:740-838 | the new item is at the insertion point, every other item is kept at its shifted path, the count grows by one and the root is expanded |
| MotTreeSpec.AddedBesideTop | src/mot/iupmot_tree.c:782-786 | inserting next to a top-level item makes the new item a top-level item right after it |
| MotTreeSpec.GuardsDiffer | src/mot/iupmot_tree.c:1138-1145 | the corrected MOVENODE guard blocks exactly the self-move in addition to what the written guard blocks |
| MotTreeSpec.CopyPointValid | src/mot/iupmot_tree.c:158-187 | the copy goes into a child slot of a branch or of the container |
| MotTreeSpec.SelfMoveCopiesIntoItself | src/mot/iupmot_tree.c:1138-1148 | for any expanded branch, the written guard lets MOVENODE onto itself through, and the copy then becomes the first child of the very item whose children are being copied |
| MotTreeSpec.SelfMoveAsWrittenUnmarks | src/mot/iupmot_tree.c:1138-1151 | for a leaf or collapsed branch other than the root, the written guard lets the self-move through, the corrected one refuses it, and the written copy-then-remove leaves the item in place with its sub-tree unmarked |
| MotTreeSpec.MoveCopiesOutside | src/mot/iupmot_tree.c:1128-1154 | with the corrected guard the copy point lies outside the moved sub-tree |
| MotTreeSpec.CopyApart | src/mot/iupmot_tree.c:158-187 | the new slot and the shifted source lie outside one another |
| MotTreeSpec.CopiedInPlaces | src/mot/iupmot_tree.c:158-187 | the copy stands at the copy point, unmarked and otherwise equal to the source, and the original is still there with the same frame |
| MotTreeSpec.MovedPlaces | src/mot/iupmot_tree.c:1128-1154 | a move keeps the number of items and the shape, and the moved sub-tree is found unmarked at its new place |
| MotTreeSpec.MovedKeepsItem | src/mot/iupmot_tree.c:1146-1151 | an item outside the moved sub-tree and off the two changed ancestor chains keeps its sub-tree, at its path shifted by the copy and unshifted by the removal |
| MotTreeSpec.MovedKeeps | src/mot/iupmot_tree.c:1128-1154 | a move leaves every item alone except the moved sub-tree, its ancestors, the ancestors of the copy point and the root's state; with the unchanged count, the original sub-tree is gone |
| MotTreeSpec.RemovedKeeps | src/mot/iupmot_tree.c:1521-1547 | removing a sub-tree other than the root's takes away exactly its items, keeps the root first and every other item at its unshifted path |
| MotTreeSpec.EmptiedKeeps | src/mot/iupmot_tree.c:541-565 | removing the children leaves the item childless and otherwise as it was, and takes away exactly the items below it |
| MotTreeSpec.DeleteMarkedClears | src/mot/iupmot_tree.c:1548-1567 | after DELNODE=MARKED no item but the root is marked, the root keeps its kind and title, and a tree without marks is left as it was |
| MotTreeSpec.DeleteMarkedKeeps | src/mot/iupmot_tree.c:1553-1569 | DELNODE=MARKED keeps the root, pruned, and exactly the unmarked top-level items after it, each pruned, in their order; with PruneKeeps, an item survives iff neither it nor an ancestor below the root is marked |
| MotTreeSpec.RenameCaretPos | src/mot/iupmot_tree.c:1671-1682 | a read caret position gives a 0-based position, positions below 1 giving 0; nothing when none was read |
| MotTreeSpec.RenameSelectionPos | src/mot/iupmot_tree.c:1684-1698 | a selection is set iff both numbers were read and both are at least 1; both are then made 0-based |
| MotTree.Visit.constructor | src/mot/iupmot_tree.c:496-504 | a visit starts outside the range, with the given visitor |
| MotTree.VisitItem | src/mot/iupmot_tree.c:439-494 | one visitor call gives the mark and range flag of the step function |
| MotTree.ForEach | src/mot/iupmot_tree.c:57-85 | the recursive walk with its loop over children computes the visitor walk over the sub-tree |
| MotTree.Count | src/mot/iupmot_tree.c:1188-1198 | the count is the number of items of the sub-tree |
| MotTree.Parent | src/mot/iupmot_tree.c:1106-1126 | a top-level item has no parent; any other item's parent is its path minus the last index |
| MotTree.Depth | src/mot/iupmot_tree.c:1106-1126 | the root is at depth 0 and each child one deeper; a top-level item beside the root counts one step beyond |
| MotTree.AncestorCheckAsWritten | src/mot/iupmot_tree.c:1138-1145 | the loop refuses exactly when the source is a proper ancestor of the destination |
| MotTree.AncestorCheck | src/mot/iupmot_tree.c:2212-2220 | the corrected check refuses exactly when the source is the destination or one of its ancestors |
| MotTree.CopyChildren | src/mot/iupmot_tree.c:138-156 | the loop copies each child, unmarked, in order |
| MotTree.ExpandCollapseAllNodes | src/mot/iupmot_tree.c:506-528 | the loop sets the state on every item below that has children |
| MotTree.Tree.constructor | src/mot/iupmot_tree.c:840-888 | the driver's tree starts with one expanded, marked root branch where BLOCK starts |
| MotTree.Tree.FindNodeId | src/mot/iupmot_tree.c:579-617 | the search finds an item iff it is in the walk, and advances the counter to its position (or by the walk's length) |
| MotTree.Tree.FindNodeFromId | src/mot/iupmot_tree.c:619-657 | counting the counter down finds the item with that id and leaves the counter as the lookup states |
| MotTree.Tree.GetNodeId | src/mot/iupmot_tree.c:659-665 | the id of an item is its position in id order |
| MotTree.Tree.NodeFromCounter | src/mot/iupmot_tree.c:619-657 | the item whose id the counter holds is found from the root |
| MotTree.Tree.FindNodeFromString | src/mot/iupmot_tree.c:676-686 | the empty reference names the focus, a number the item with that id |
| MotTree.Tree.VisibleAfter | src/mot/iupmot_tree.c:287-345 | NEXT and PGDN find the visible item 1 or 10 places on, clamped at the last visible item |
| MotTree.Tree.VisibleBefore | src/mot/iupmot_tree.c:347-357 | PREVIOUS and PGUP find the visible item 1 or 10 places back, clamped at the root |
| MotTree.Tree.ForEachRoot | src/mot/iupmot_tree.c:57-85 | a visitor pass over the root sub-tree |
| MotTree.Tree.SetMark | src/mot/iupmot_tree.c:1235-1285 | MARK applies the mark commands and keeps the tree well shaped |
| MotTree.Tree.NavItem | src/mot/iupmot_tree.c:1296-1333 | VALUE's ROOT, LAST, PGUP, PGDN, NEXT, PREVIOUS or reference names the navigation target |
| MotTree.Tree.MoveFocus | src/mot/iupmot_tree.c:1334-1372 | VALUE moves the focus, marks it alone in single mode and records its id |
| MotTree.Tree.SetValue | src/mot/iupmot_tree.c:1287-1372 | a mark command first; when it does not apply, a focus move |
| MotTree.Tree.GetValue | src/mot/iupmot_tree.c:1223-1233 | VALUE reads back the id of the focus, which looks up to the focus again |
| MotTree.Tree.SetMarkStart | src/mot/iupmot_tree.c:1374-1383 | MARKSTART records the item named, when there is one |
| MotTree.Tree.SetExpandAll | src/mot/iupmot_tree.c:1592-1607 | EXPANDALL sets the outline states of the root sub-tree and keeps the tree well shaped |
| MotTree.Tree.AddNode | src/mot/iupmot_tree.c:740-838 | ADD and INSERT put the new item as first child of a branch or right after the reference; a missing reference changes nothing |
| MotTree.Tree.MoveSubtree | src/mot/iupmot_tree.c:1146-1151 | copy then remove gives the moved tree and keeps it well shaped |
| MotTree.Tree.SetMoveNode | src/mot/iupmot_tree.c:1128-1154 | MOVENODE moves when both references name items and the corrected guard allows it, otherwise changes nothing |
| MotTree.Tree.SetDelNode | src/mot/iupmot_tree.c:1521-1573 | DELNODE removes the item with its sub-tree, its children or the marked items, never the root; MARKED gives DeleteMarked, which keeps exactly the unmarked items (DeleteMarkedKeeps) |
| MotTree.Tree.GetDepth | src/mot/iupmot_tree.c:1106-1126 | DEPTH of the item named |
| MotTree.Tree.GetChildCount | src/mot/iupmot_tree.c:1174-1186 | CHILDCOUNT is the number of direct children |
| MotTree.Tree.GetCount | src/mot/iupmot_tree.c:1200-1206 | COUNT is the number of items of the root sub-tree, which is the number of ids |
| Menu.MenuClasses | src/iup_menu.c:206-289 | all four classes are menus; only the separator is not interactive; separator and item take no child, submenu one, menu many |
| Menu.ChainUnique | src/iup_menu.c:30-35 | the parent links from a handle give one chain only |
| Menu.TopMenu | src/iup_menu.c:30-35 | the top menu is the end of the parent chain and has no parent |
| Menu.MenuBarBelowDialog | src/iup_menu.c:68-74 | a menu is a menu bar iff the next handle up is a dialog, and then it is not its own top menu |
| Menu.IdsCountUp | src/iup_menu.c:37-52 | from a positive counter, successive ids count up by one |
| Menu.FreshMenuIds | src/iup_menu.c:37-52 | a new top menu hands out 100, 101, 102, ... |
| Menu.GetChildId | src/iup_menu.c:37-52 | without a dialog, the id comes from the top menu's counter (0 read as 100), which grows by one |
| Menu.Digits | src/iup_menu.c:54-66 | a number prints as at least one decimal digit, without leading zeros |
| Menu.DigitsRoundTrip | src/iup_menu.c:54-66 | printed digits read back as the number |
| Menu.DecimalRoundTrip | src/iup_menu.c:54-66 | a printed int, sign included, reads back as itself |
| Menu.GetChildIdStr | src/iup_menu.c:54-66 | the name is "iup-", the class name, "-" and the current counter; the counter is not advanced |
| Menu.ChildIdStrRoundTrip | src/iup_menu.c:54-66 | the id reads back from the part of the name after the class name |
| Menu.Half | src/iup_menu.c:91-92 | halving truncates toward zero as in C |
| Menu.AdjustSentinels | src/iup_menu.c:76-120 | CENTER gives half the screen, LEFT/TOP 0, RIGHT/BOTTOM the screen size, MOUSEPOS the cursor; every other value, CURRENT and CENTERPARENT included, passes through |
| Menu.AdjustIdempotent | src/iup_menu.c:76-120 | with ordinary screen and cursor values, resolving a coordinate twice is resolving it once |
| Menu.AdjustPos | src/iup_menu.c:76-120 | both coordinates are resolved independently, although the screen and cursor are only read when needed |
| Menu.FirstIndexOf | src/iup_menu.c:133-134 | the search finds a position iff the byte occurs, the first one |
| Menu.FirstIndexAt | src/iup_menu.c:133-134 | an occurrence with none before it is the one found |
| Menu.MnemonicUnchanged | src/iup_menu.c:122-146 | the title is unchanged when KEY is unset, has code 0 or its byte does not occur |
| Menu.MnemonicInserted | src/iup_menu.c:122-146 | otherwise the title is one byte longer, with "&" right before the first occurrence and the rest unchanged; removing the "&" gives the title back |
| Menu.MnemonicFound | src/iup_menu.c:133-134 | the search through the title and its terminator stops before the key byte, or at the end for a zero byte |
| Menu.Strchr | src/iup_menu.c:133-134 | the loop finds the first occurrence, the terminating zero included, or -1 |
| Menu.GetTitle | src/iup_menu.c:122-146 | building the new buffer from a C-string title gives the mnemonic title |
| Menu.MenuTypedKeeps | src/iup_menu.c:183-200 | the children a menu takes from its parameters are exactly the menu handles among them, no more than there were |
| Menu.ItemCreate | src/iup_menu.c:158-166 | TITLE and ACTION are stored only when given |
| Menu.SubmenuCreate | src/iup_menu.c:168-181 | TITLE is stored when given, and the child is appended only when it is a menu, so a new submenu has at most one child; a child that is not a menu keeps its parent, and only the child's parent link may change |
| Menu.MenuCreate | src/iup_menu.c:183-200 | the counter is zeroed and exactly the menu parameters are appended in order; only the parent link of a parameter may change, and other parameters keep theirs |
| WinTimer.AsUnsigned | src/win/iupwin_timer.c:53 | storing TIME in an unsigned int keeps a value in range and is always in range |
| WinTimer.StartsIffNonZero | src/win/iupwin_timer.c:53-54 | a timer starts iff TIME is not zero; a negative TIME becomes a long period |
| WinTimer.TimerDriver.constructor | src/win/iupwin_timer.c:22 | the table starts absent |
| WinTimer.TimerDriver.InitClass | src/win/iupwin_timer.c:82-88 | the table is created once and kept on later calls |
| WinTimer.TimerDriver.Release | src/win/iupwin_timer.c:71-80 | the table is destroyed and absent afterwards |
| WinTimer.TimerDriver.Run | src/win/iupwin_timer.c:46-59 | a running timer or zero TIME changes nothing; otherwise the timer takes the new id and the table files it under that id |
| WinTimer.TimerDriver.Stop | src/win/iupwin_timer.c:61-69 | a started timer loses its entry and its id becomes -1, so it can be run again; otherwise nothing changes |
| WinTimer.TimerDriver.TimerProc | src/win/iupwin_timer.c:24-44 | the loop ends iff the id is in the table, its timer is alive and ACTION_CB returns IUP_CLOSE; nothing else changes |
| WinTimer.TimerDriver.TargetIsRunning | src/win/iupwin_timer.c:24-69 | a message reaches a timer only under the id it runs with, and every running timer is reached under its id |
| WinTimer.StopThenLateMessage | src/win/iupwin_timer.c:24-69 | after Stop, a late message with the old id reaches nothing |

## Left out

- The Motif and Xt calls are not modelled: argument lists, widget creation, the map method, images, colours, fonts, the edit field and its rename timing, event handlers and drag and drop. Only the drag-and-drop self/ancestor check (`src/mot/iupmot_tree.c:2212-2220`) is used, as the corrected MOVENODE guard.
- Callbacks (SELECTION_CB, BRANCHOPEN_CB, RENAME_CB, ACTION_CB) are not called. The timer's ACTION_CB result is a parameter.
- Attribute strings are given already parsed:
  - a node reference (empty, a number, or not a number), the MARK command and the VALUE navigation become datatypes;
  - VALUE is given both as a mark command and as a navigation.
- Getters and setters outside the core are not modelled: PARENT, KIND, STATE, MARKED, TITLE, USERDATA, colours and images.
- MotTree.Tree.SetDelNode: does not free user data, and does not remove marked items in the driver's list order; the result is stated as one pruning of every marked item below and beside the root.
- MotTree.Tree.SetDelNode: the destroy loop of RemoveChildren becomes one functional update of the items.
- MotTree.Tree.SetMoveNode: the corrected guard also refuses the self-move of a leaf or a collapsed branch. In the source that move ends, and its net effect is to clear the marks of the item's sub-tree (SelfMoveAsWrittenUnmarks); the model leaves the tree unchanged. The self-move of a collapsed root, after which the stored root item is the removed original, is not modelled.
- MotTree.Tree.SetMoveNode: a move of the root itself (next to or into a top-level item beside it, which INSERT on the root creates) passes both guards. The source then destroys the original root while its stored root item still names it, so later ids, COUNT and VALUE=ROOT start from a destroyed item. The model instead makes the first remaining top-level item the new root; the dangling root item is not modelled.
- MotTree.Tree.SetValue: the focus and the BLOCK start are not re-targeted after edits. A focus path that no longer names an item counts as no focus.
- MotTree.Tree.SetMark: CLEARALL and MARKALL act on every item of the container, as the container-wide selection calls do.
- MotTree.ForEach: the visitors always return 1, so the early stop of the walk is not modelled.
- Menu.GetChildId: when the menu is inside a dialog, the id comes from the dialog's counter, which is not part of this model; the method then returns `None`.
- Menu.GetChildId: whether a dialog lies above the element is the free input `inDialog`, because IupGetDialog is not part of this model; the same holds for Menu.GetChildIdStr.
- Menu.GetChildId: the counter is an unbounded integer; `int` overflow after 2^31 ids is not modelled.
- Menu.GetTitle: the key name is given as its key code; the string-to-code table is not part of this model. The buffer it allocates, which the caller must free, is not modelled.
- Menu.SubmenuCreate, Menu.MenuCreate: both append through Menu.Append, where IupAppend is reduced to linking parent and child. Attribute inheritance and the class's child checks are not part of this model.
- Menu.MenuCreate: appends each parameter through the same reduced IupAppend (linking only). Attribute inheritance and the class's child checks are not part of this model.
- WinTimer.TimerDriver.Run: the system call that starts the timer is a parameter giving a fresh positive id; its failure (id 0) and the truncation of its result to `int` are not modelled.
- WinTimer.TimerDriver.Run: timers must be run and stopped through one driver. This precondition stands for the driver's ownership of every started timer.

## Findings

| source | as written | input that shows it | evidently intended | confidence | as-written member | corrected member |
|---|---|---|---|---|---|---|
| src/mot/iupmot_tree.c:1138-1145 | MOVENODE refuses only when the source is a proper ancestor of the destination, so a move of an item onto itself passes; with an expanded branch, the copy goes in as the item's own first child and the child copy meets that copy again at every level; with a leaf or a collapsed branch the move ends, but only clears the marks of the item's sub-tree (SelfMoveAsWrittenUnmarks) | `MOVENODE0="0"` with the root branch expanded (never ends); MOVENODE of any marked leaf onto itself (clears its mark) | a move onto itself does nothing, as the drag-and-drop path checks at lines 2212-2220 | not executed | MotTreeSpec.SelfMoveCopiesIntoItself | MotTree.AncestorCheck |
