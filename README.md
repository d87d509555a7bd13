# SgiPlan2 core, modelled in Dafny

SgiPlan2 is a desktop tool for managing members, regions and positions. It is
written in Python with PySide6 and stores its data through SQLAlchemy on
SQLite. This project models the parts of it that carry rules, and proves
properties of that model:

- **Hierarchies.** Regions and positions are trees linked by `parent_id`.
  The repositories compute a row's descendants (`_get_all_descendant_ids`).
  They offer as possible parents every row except the edited one and its
  subtree, ordered by name. Positions are also listed ordered by
  `(parent_id, rank)` and by `rank` descending.
- **Tree widgets.** The position and region list widgets build a forest from
  the flat list (`display_items`). They filter it with the rule "shown iff the
  item or a descendant matches" (`_apply_filter_recursive`). The position
  widget also walks the tree in pre-order to send `(id, parent_id, rank)`
  entries (`_traverse_tree_item`), and moves an item up or down among its
  siblings.
- **View models.** The position list view model latches its search and sort
  settings, refuses to delete a position that has children, and applies a
  hierarchy update as one transaction. The position dialog adds or renames a
  position and turns the unique-name violation into its own message. The
  member dialog keeps scratch fields that are written to the member only on
  save.
- **Bulk import.** `MemberImporter.run_import` reconciles spreadsheet rows
  with the stored regions, positions and members. It commits or rolls back
  each row on its own and keeps a member cache across rows. `ImportWorker`
  counts the results and honours a stop flag. `ImportViewModel` guards
  against starting two imports.
- **Member edit dialog.** A table of `(position, primary)` rows with a
  single-selection radio group. It supports add, remove, load and validation.

Modules follow the source:

| module | file | source |
|---|---|---|
| `Entities` | entities.dfy | rows of the four tables, lookups by id, SQLite rowid allocation |
| `Storage` | storage.dfy | committed database, session with flush, commit and rollback, the schema's uniqueness constraints |
| `Text` | text.dfy | `strip`, `in` on strings, ASCII `lower`, string ordering |
| `Sorting` | sorting.dfy | a stable sort standing for SQL `ORDER BY` |
| `Hierarchy` | hierarchy.dfy | parent chains, descendants, acyclicity, re-parenting |
| `TreeRepository` | tree_repository.dfy | the code that region_repository.py and position_repository.py share |
| `PositionRepository` | position_repository.dfy | the ordered position queries |
| `MemberPositionRepository` | member_position_repository.dfy | the two assignment lookups |
| `TreeWidget` | tree_widget.dfy | `display_items` and the filter, shared by both list widgets |
| `TreeReorder` | tree_reorder.dfy | the pre-order walk and move up/down of the position widget |
| `PositionListViewModel`, `PositionDialogViewModel`, `MemberDialogViewModel` | one file each | the view models |
| `MemberImporter` | member_importer.dfy | the row loop of `run_import` |
| `ImportViewModel` | import_viewmodel.dfy | `ImportWorker` and `ImportViewModel` |
| `MemberEditDialog` | member_edit_dialog.dfy | the staged position table |

The database is a value `Db` of four tables. Each table is a sequence of rows
in rowid order. An unordered query returns the rows in that order: it is the order SQLite's table scan returns in practice, which the model fixes. A `Session`
object holds a working copy of a `Database` object's committed state:

- `Commit` stores the working copy, or raises the first broken uniqueness
  constraint.
- Commit can also fail for a reason outside the model. That reason is a
  parameter `fault`.
- `Rollback` restores the committed state.

Objects the source mutates are classes with `modifies` clauses: the session,
the view models, the importer's run, the import worker and the dialog.
Each method is proved against a function of the old state, and that function's
properties are proved as lemmas.

Hierarchies are `seq<TreeNode>`. `Up(t, x, k)` is the k-th ancestor of `x`.
`IsDescendant(t, d, a)` means some `k >= 1` has `Up(t, d, k) == Some(a)`, and a
table is `Acyclic` when no chain returns to its start.

## Model

| member | source | states |
|---|---|---|
| Entities.Find | repositories/position_repository.py:50 | the lookup by id returns a row with that id, and returns None exactly when no row has it |
| Entities.FindUnique | viewmodels/position_dialog_viewmodel.py:21 | with unique ids, the lookup by a row's id returns that very row |
| Entities.FindMember | viewmodels/member_dialog_viewmodel.py:88-93 | the member lookup by id returns a member with that id, and returns None exactly when none has it |
| Entities.NextId | services/member_importer.py:69-71 | a new row's id is 1 in an empty table and otherwise one more than some id in use, so it exceeds every id in use |
| Hierarchy.ChildIds | repositories/region_repository.py:62-64 | the child query returns only ids of rows whose parent is `p`, and every such row's id |
| Hierarchy.ChildIdsAreChildren | repositories/region_repository.py:62-64 | with unique ids, an id is returned by the child query exactly when its row's parent is `p` |
| Hierarchy.UpCompose | repositories/region_repository.py:59-70 | following j parent links and then k more is following j + k links |
| Hierarchy.ParentIsRow | repositories/region_repository.py:62-64 | a row that has a parent in the table is itself a row |
| Hierarchy.DescendantIsRow | repositories/region_repository.py:59-70 | every descendant is a row of the table |
| Hierarchy.DescendantTransitive | repositories/region_repository.py:66-69 | a descendant of a descendant of `a` is a descendant of `a` |
| Hierarchy.DescendantStep | repositories/region_repository.py:66-69 | a descendant of `a` is a child of `a` or a descendant of one of `a`'s children |
| Hierarchy.ChildIsDescendant | repositories/region_repository.py:68 | a child is a descendant |
| Hierarchy.ChildShrinks | repositories/region_repository.py:69 | on an acyclic table a child's descendants are a strict subset of its parent's, so the recursion terminates |
| Hierarchy.BelowMember | repositories/region_repository.py:66-69 | the collected set holds exactly the visited children and their descendants |
| Hierarchy.BelowClosed | repositories/region_repository.py:67 | a child's descendants are already collected whenever the child is, so the `not in` guard skips nothing new |
| Hierarchy.BelowChildren | repositories/region_repository.py:59-70 | all children plus their descendants are exactly the descendants |
| Hierarchy.SetParent | repositories/region_repository.py:72-75 | re-parenting changes the `parent_id` of the rows with that id and nothing else |
| Hierarchy.ParentOfSetParent | repositories/region_repository.py:72-75 | after re-parenting `x`, `x`'s parent is the new one (if `x` is a row) and every other row's parent is unchanged |
| Hierarchy.SetParentChangesOnlyX | repositories/region_repository.py:72-75 | re-parenting changes no parent link except `x`'s |
| Hierarchy.Agree | repositories/region_repository.py:84-88 | parent chains that avoid the re-parented row are the same before and after |
| Hierarchy.AgreeFromOriginal | repositories/region_repository.py:84-88 | the same, with avoidance read in the original table |
| Hierarchy.AgreeOrHit | repositories/region_repository.py:84-88 | a chain either reaches the re-parented row within n steps or is unchanged for n steps |
| Hierarchy.FirstHit | repositories/region_repository.py:84-88 | a chain that reaches `x` does so at a first step |
| Hierarchy.NoCycleAtReparented | repositories/region_repository.py:84-88 | after re-parenting `x` under a row outside its subtree, no chain from `x` returns to `x` |
| Hierarchy.ReparentKeepsAcyclic | repositories/region_repository.py:84-88 | re-parenting a row onto anything but itself or a descendant keeps the table acyclic |
| Hierarchy.ReturnThrough | repositories/region_repository.py:84-88 | a cycle through `x` from any row gives a cycle from `x` |
| Hierarchy.NoReturn | repositories/region_repository.py:84-88 | after an allowed re-parenting no row's chain returns to that row |
| Hierarchy.ReparentOntoSubtreeCycles | repositories/region_repository.py:84-88 | re-parenting a row onto itself or one of its descendants creates a cycle |
| Hierarchy.CycleThroughNewParent | repositories/region_repository.py:84-88 | after re-parenting `x` under its descendant, the chain from `x` returns to `x` |
| Hierarchy.ChainStillReaches | repositories/region_repository.py:84-88 | a chain that reaches `x` still reaches it when only `x`'s link changed |
| TreeRepository.ChildRows | repositories/position_repository.py:50 | the `children` relationship holds exactly the rows whose parent is `p` |
| TreeRepository.GetByIdWithChildren | repositories/region_repository.py:48-57 | returns None exactly when no row has the id; otherwise the row with that id and exactly its children |
| TreeRepository.DescendantIds | repositories/region_repository.py:59-70 | on an acyclic table the loop-and-recurse computation returns exactly the true descendants, and never `r` itself |
| TreeRepository.NotOwnDescendant | repositories/position_repository.py:52-63 | on an acyclic table no row is its own descendant |
| TreeRepository.Without | repositories/region_repository.py:88 | the `notin_` filter keeps exactly the rows whose id is not excluded, in table order |
| TreeRepository.NameLeIsPreorder | repositories/region_repository.py:90 | ordering by name is a total preorder |
| TreeRepository.GetPossibleParents | repositories/region_repository.py:72-90 | in add mode returns every row. In edit mode returns every row except the edited one and its descendants, siblings and ancestors included. Either way the result is a permutation of the kept rows, ordered by name |
| TreeRepository.OfferedParentsAreExactlySafe | repositories/position_repository.py:77-81 | a row is offered as a parent exactly when re-parenting the edited row under it keeps the hierarchy acyclic |
| PositionRepository.Matching | repositories/position_repository.py:29-30 | keeps exactly the rows whose name matches the term, without adding any |
| PositionRepository.ParentRankLeIsPreorder | repositories/position_repository.py:33 | ordering by `(parent_id, rank)` ascending, NULL parent and NULL rank first, is a total preorder |
| PositionRepository.RankDescLeIsPreorder | repositories/position_repository.py:39 | ordering by `rank` descending, NULL rank last, is a total preorder |
| PositionRepository.GetAllSorted | repositories/position_repository.py:18-35 | with no term or an empty one, a permutation of all positions. Otherwise a permutation of exactly the matching positions. Ordered by `(parent_id, rank)` |
| PositionRepository.GetAllSortedByRank | repositories/position_repository.py:37-39 | a permutation of all positions: the ranked ones first with rank non-increasing, then those with a NULL rank |
| Sorting.SortBy | repositories/position_repository.py:33 | `ORDER BY` returns a permutation of its input, sorted by the key's preorder |
| Sorting.Insert | repositories/position_repository.py:33 | inserting into a sorted list keeps it sorted and adds exactly that element |
| Sorting.SameElements | repositories/region_repository.py:90 | a permutation has the same elements as the original |
| MemberPositionRepository.FindByMemberAndPosition | repositories/member_position_repository.py:17-22 | returns a row with both ids if one exists, and None exactly when none does |
| MemberPositionRepository.FindReturnsTheRow | models/member_position_model.py:8-9 | under the primary key `(member_id, position_id)`, the lookup returns the one row with that key |
| MemberPositionRepository.PrimaryCount | repositories/member_position_repository.py:26-29 | the count of primary rows is at most the number of rows |
| MemberPositionRepository.HasPrimaryIffPrimaryRow | repositories/member_position_repository.py:24-29 | `has_primary_position(m)` holds exactly when some row of `m` is primary |
| MemberPositionRepository.HasPrimaryIgnoresOtherRows | repositories/member_position_repository.py:26-29 | rows of other members and non-primary rows do not change the answer |
| MemberPositionRepository.PrimaryCountAppend | repositories/member_position_repository.py:26-29 | the count over two tables is the sum of the counts |
| Text.LeadingSpaces | services/member_importer.py:48 | counts the whitespace before the first non-whitespace character |
| Text.TrailingSpaces | services/member_importer.py:48 | counts the whitespace after the last non-whitespace character |
| Text.Strip | services/member_importer.py:48-51 | `strip()` returns a slice of the input with only whitespace before and after it, that neither starts nor ends with whitespace, and is empty exactly when the input is all whitespace |
| Text.Contains | views/position_list_widget.py:75 | `needle in hay` holds exactly when the needle occurs at some position of the hay |
| Text.Lower | views/position_list_widget.py:74 | lower-casing keeps the length and maps each character on its own |
| Text.LexLeTotal | repositories/region_repository.py:90 | string order is total |
| Text.LexLeTransitive | repositories/region_repository.py:90 | string order is transitive |
| TreeWidget.RootsOfMembers | views/position_list_widget.py:105-110 | the top level holds exactly the ids of rows whose parent is null, 0 or not in the list |
| TreeWidget.ChildrenOfMembers | views/position_list_widget.py:105-108 | the children of `p` are exactly the ids of rows whose parent is `p` and present |
| TreeWidget.LinkedNext | views/position_list_widget.py:105-110 | one iteration of the second loop appends the row to its parent's children or to the top level |
| TreeWidget.RootsOfNoDuplicates | views/position_list_widget.py:110 | with unique ids, the top level holds no id twice |
| TreeWidget.ChildrenOfNoDuplicates | views/position_list_widget.py:108 | with unique ids, no child list holds an id twice |
| TreeWidget.PlacedOnce | views/region_list_widget.py:87-95 | each row is placed exactly once: at the top level iff its parent is null, 0 or absent, otherwise under its parent and no other, and no list repeats an id |
| TreeWidget.CreateItems | views/region_list_widget.py:81-85 | the first loop makes exactly one item per row, keyed by id, with no children |
| TreeWidget.LinkItems | views/position_list_widget.py:104-110 | the second loop leaves every item's children, and the top level, equal to the rows placed there in list order |
| TreeWidget.DisplayItems | views/position_list_widget.py:90-114 | `display_items` makes one item per row and links children and roots in list order |
| TreeWidget.WidgetChildIsChild | views/position_list_widget.py:106-108 | an item placed under another has that row as its parent |
| TreeWidget.Build | views/position_list_widget.py:105-112 | the subtree shown under row `x`'s item is rooted at `x`'s row |
| TreeWidget.BuildForest | views/position_list_widget.py:112 | the shown forest has one tree per top-level id |
| TreeWidget.Flatten | views/position_list_widget.py:78-79 | a subtree's rows start with its own row |
| TreeWidget.ApplyFilterRecursive | views/position_list_widget.py:70-84 | visits every child, returns whether the item or a descendant matches, and sets `hidden` to its negation |
| TreeWidget.FilterChanged | views/region_list_widget.py:47-51 | filters every top-level item with the lower-cased search text |
| TreeWidget.SomeMatchAppend | views/position_list_widget.py:77-80 | some row of a concatenation matches iff some row of either part does |
| TreeWidget.AnyMatchIffSubtreeMatches | views/region_list_widget.py:53-67 | an item is visible exactly when some row of its subtree, itself included, matches |
| TreeWidget.AnyChildMatchIffMatches | views/region_list_widget.py:60-63 | some child is visible iff some row below the item matches |
| TreeWidget.FilteredHiddenIff | views/region_list_widget.py:65-67 | after filtering, an item is hidden exactly when no row of its subtree matches |
| TreeWidget.VisibleChildVisibleParent | views/position_list_widget.py:82-83 | a shown item never has a hidden parent |
| TreeWidget.EmptySearchShowsAll | views/position_list_widget.py:66-75 | an empty search text shows every item |
| TreeWidget.FilterKeepsRows | views/position_list_widget.py:83 | filtering only sets flags: the rows and their order stay the same |
| TreeWidget.FilterKeepsRowsAll | views/position_list_widget.py:67-68 | the same for the whole forest |
| TreeReorder.PreOrder | views/position_list_widget.py:186-201 | the walk of a subtree starts with the item's own entry, carrying its parent and its rank |
| TreeReorder.TraverseTreeItem | views/position_list_widget.py:186-201 | the recursive walk appends exactly the subtree's pre-order entries to the accumulator |
| TreeReorder.UpdatePositionHierarchyInViewmodel | views/position_list_widget.py:179-184 | the loop over top-level items builds exactly the pre-order walk of the forest |
| TreeReorder.PreOrderRows | views/position_list_widget.py:195-201 | a subtree's walk emits one entry per item, in pre-order |
| TreeReorder.PreOrderFromRows | views/position_list_widget.py:200-201 | the walk of the children from index `start` emits their rows in pre-order |
| TreeReorder.UpdatedHierarchyRows | views/position_list_widget.py:179-184 | the whole walk emits exactly one entry per item of the tree, in pre-order |
| TreeReorder.SiblingEntry | views/position_list_widget.py:189-193 | the `i`-th sibling is emitted with rank `i` |
| TreeReorder.RanksAreSiblingIndices | views/position_list_widget.py:189-199 | the `i`-th child of an item is sent with that item's id as parent and rank `i`; the `i`-th top-level item is sent with no parent and rank `i` |
| TreeReorder.ParentsEarlierAppend | views/position_list_widget.py:200-201 | concatenating walks keeps "parents come first" |
| TreeReorder.ParentsEarlierUnder | views/position_list_widget.py:195-201 | an item's entry in front of its children's walk keeps "parents come first" |
| TreeReorder.PreOrderParentsEarlier | views/position_list_widget.py:186-201 | in a subtree's walk every parent is emitted before its children |
| TreeReorder.PreOrderFromParentsEarlier | views/position_list_widget.py:200-201 | the same for a list of siblings |
| TreeReorder.ParentSentFirst | views/position_list_widget.py:179-184 | in what the widget sends, every entry with a parent comes after an entry for that parent |
| TreeReorder.BuildEntries | views/position_list_widget.py:186-201 | walking a displayed subtree sends each row its displayed parent |
| TreeReorder.BuildChildrenEntries | views/position_list_widget.py:200-201 | walking displayed children sends each the parent they are displayed under |
| TreeReorder.DisplayedTreeKeepsParents | views/position_list_widget.py:105-110 | walking a freshly displayed tree sends every position its own parent, or none when the parent was null, 0 or not in the list |
| TreeReorder.RootsEntries | views/position_list_widget.py:182-183 | walking displayed top-level items sends them no parent |
| TreeReorder.Siblings | views/position_list_widget.py:233-244 | the current item's index is within its sibling list |
| TreeReorder.SwapWithNext | views/position_list_widget.py:238-239 | siblings `i` and `i + 1` trade places, each with its subtree, and every other sibling stays |
| TreeReorder.TakeInsertSwaps | views/position_list_widget.py:238-239 | taking a child and inserting it at a neighbouring index is a swap with that neighbour |
| TreeReorder.MoveItemUp | views/position_list_widget.py:228-251 | with no current item, or at index 0, nothing moves and nothing is sent. Otherwise the item moves one place up and the walk of the new tree is sent |
| TreeReorder.MoveItemDown | views/position_list_widget.py:253-276 | the mirror image: a no-op for the last sibling or with no current item |
| TreeReorder.SiblingsOfWith | views/position_list_widget.py:233-235 | replacing a sibling list and reading it back gives the replacement |
| TreeReorder.WithOwnSiblings | views/position_list_widget.py:233-235 | writing back a sibling list unchanged leaves the tree unchanged |
| TreeReorder.WithSiblingsTwice | views/position_list_widget.py:233-235 | writing a sibling list twice is writing the last one |
| TreeReorder.SameLevel | views/position_list_widget.py:235-239 | another index among the same siblings addresses the same sibling list |
| TreeReorder.MoveUpSwapsSiblings | views/position_list_widget.py:228-251 | in the item's sibling list a move up makes it trade places with the previous sibling, each with its subtree, and the multiset stays. At index 0 or with no current item nothing changes. The rest of the tree is framed by the two rows below |
| TreeReorder.MoveUpKeepsOtherItems | views/position_list_widget.py:228-251 | after a move up, every item off the path to the current item is still at its place, with the same subtree |
| TreeReorder.MoveUpKeepsAncestors | views/position_list_widget.py:228-251 | after a move up, every ancestor of the current item is still at its place, with its own row |
| TreeReorder.MoveDownKeepsOtherItems | views/position_list_widget.py:253-276 | after a move down, every item off the path to the current item is still at its place, with the same subtree |
| TreeReorder.MoveDownKeepsAncestors | views/position_list_widget.py:253-276 | after a move down, every ancestor of the current item is still at its place, with its own row |
| TreeReorder.SwapKeepsMultiset | views/position_list_widget.py:238-239 | a swap keeps the multiset of siblings |
| TreeReorder.MoveDownUndoesMoveUp | views/position_list_widget.py:253-276 | moving an item up and then back down restores the tree |
| TreeReorder.MoveUpUndoesMoveDown | views/position_list_widget.py:228-251 | moving an item down and then back up restores the tree |
| TreeReorder.FlattenAllAppend | views/position_list_widget.py:182-183 | the rows of two lists of subtrees are the rows of each, concatenated |
| TreeReorder.FlattenAllCons | views/position_list_widget.py:182-183 | the rows of a list of subtrees start with the first subtree's rows |
| TreeReorder.FlattenAllSplit | views/position_list_widget.py:182-183 | the rows of a list of subtrees split around any one of them |
| TreeReorder.WithSiblingsRows | views/position_list_widget.py:228-276 | replacing a sibling list by one holding the same rows keeps every row of the tree |
| TreeReorder.SwapLevelKeepsRows | views/position_list_widget.py:238-239 | swapping two neighbours in one sibling list keeps every row of the tree |
| TreeReorder.MoveUpKeepsRows | views/position_list_widget.py:228-251 | a move up keeps every row of the tree |
| TreeReorder.MoveDownKeepsRows | views/position_list_widget.py:253-276 | a move down keeps every row of the tree |
| TreeReorder.ExchangeKeepsRows | views/position_list_widget.py:238-239 | exchanging two neighbouring subtrees keeps the multiset of rows |
| TreeReorder.SwapRows | views/position_list_widget.py:247-248 | a swap of neighbouring top-level or child items keeps the multiset of rows |
| PositionListViewModel.DeleteRow | viewmodels/position_list_viewmodel.py:57 | the delete removes exactly the rows with that id |
| PositionListViewModel.SetParentRank | viewmodels/position_list_viewmodel.py:74-76 | sets the parent and rank of the rows with that id and changes nothing else |
| PositionListViewModel.LastEntry | viewmodels/position_list_viewmodel.py:72-76 | the entry whose values stick for an id is one of the entries for that id, and None exactly when there is none |
| PositionListViewModel.ApplyEntriesRows | viewmodels/position_list_viewmodel.py:72-76 | a listed position takes the parent and rank of the last entry for it; unlisted positions, unknown ids, names and ids are untouched |
| PositionListViewModel.ApplyEntriesKeepsIds | viewmodels/position_list_viewmodel.py:72-76 | the batch keeps the set of ids, and unique ids stay unique |
| PositionListViewModel.PositionListViewModel.constructor | viewmodels/position_list_viewmodel.py:11-16 | starts with no search term, sort column 0, ascending |
| PositionListViewModel.PositionListViewModel.LoadPositions | viewmodels/position_list_viewmodel.py:18-45 | a given setting replaces the stored one and an omitted one keeps it; emits the stored term's matches in `(parent_id, rank)` order |
| PositionListViewModel.PositionListViewModel.DeletePosition | viewmodels/position_list_viewmodel.py:47-64 | a missing id, or a position with children, is refused with its message and changes nothing. Otherwise only that row is deleted and committed and the list reloaded; on a failed commit everything is rolled back and the error emitted. The settings never change |
| PositionListViewModel.PositionListViewModel.UpdatePositionsHierarchy | viewmodels/position_list_viewmodel.py:69-81 | all entries are applied in order and committed together; on failure nothing of the batch remains and the error is emitted |
| PositionDialogViewModel.Rename | viewmodels/position_dialog_viewmodel.py:21-23 | renaming changes only the name of the rows with the id |
| PositionDialogViewModel.NewIdIsFresh | viewmodels/position_dialog_viewmodel.py:28-29 | a new position's id is used by no stored position |
| PositionDialogViewModel.RenameClash | models/position_model.py:8 | renaming to another row's name breaks the unique name |
| PositionDialogViewModel.RenameNoClash | models/position_model.py:8 | renaming to a name no other row has keeps names unique |
| PositionDialogViewModel.RenameKeepsIds | viewmodels/position_dialog_viewmodel.py:21-23 | renaming keeps ids unique |
| PositionDialogViewModel.RenameUniqueness | viewmodels/position_dialog_viewmodel.py:20-23 | renaming a stored row keeps ids unique, and keeps names unique exactly when no other row has the name |
| PositionDialogViewModel.AppendUniqueness | viewmodels/position_dialog_viewmodel.py:27-29 | adding the new row keeps ids unique, and keeps names unique exactly when no row has the name |
| PositionDialogViewModel.SavedPositionsViolation | viewmodels/position_dialog_viewmodel.py:31 | on a consistent state a save can break only the unique name, and breaks it exactly when the name is taken by another position |
| PositionDialogViewModel.NameConstraintClassified | viewmodels/position_dialog_viewmodel.py:35-36 | the integrity error of the name constraint is reported with the duplicate-name message |
| PositionDialogViewModel.SaveOutcomes | viewmodels/position_dialog_viewmodel.py:17-41 | a save that finds its row, or adds one, fails with the duplicate-name message exactly when another position has the name. It commits exactly when the name is free and storage does not fail. Whenever it does not commit, the committed state is unchanged |
| PositionDialogViewModel.SavedPositionsShape | viewmodels/position_dialog_viewmodel.py:20-29 | an edit touches only the edited row's name; an add appends one root row, with a fresh id and a NULL rank |
| PositionDialogViewModel.PositionDialogViewModel.constructor | viewmodels/position_dialog_viewmodel.py:10-12 | starts with no position |
| PositionDialogViewModel.PositionDialogViewModel.SetPosition | viewmodels/position_dialog_viewmodel.py:14-15 | stores the position; None means add mode |
| PositionDialogViewModel.PositionDialogViewModel.GetPositionName | viewmodels/position_dialog_viewmodel.py:43-44 | the edited position's name, or "" in add mode |
| PositionDialogViewModel.PositionDialogViewModel.SavePosition | viewmodels/position_dialog_viewmodel.py:17-41 | if the edited position is gone, emits the not-found message and commits nothing. Otherwise it renames or adds and commits, emitting `position_saved` only on success and otherwise the classified error, with the store unchanged |
| MemberDialogViewModel.WriteMember | viewmodels/member_dialog_viewmodel.py:88-93 | writes the four scratch fields into the edited member and changes no other row |
| MemberDialogViewModel.NewMemberIdIsFresh | viewmodels/member_dialog_viewmodel.py:95-101 | a new member's id is used by no stored member |
| MemberDialogViewModel.WrittenViolation | viewmodels/member_dialog_viewmodel.py:103 | on a consistent state a save breaks a constraint exactly when another member has the phone number, and then it is the phone constraint |
| MemberDialogViewModel.EditedViolation | viewmodels/member_dialog_viewmodel.py:88-93 | the same for an edit |
| MemberDialogViewModel.AddedViolation | viewmodels/member_dialog_viewmodel.py:94-101 | the same for an add |
| MemberDialogViewModel.SaveOutcomes | viewmodels/member_dialog_viewmodel.py:85-110 | a save commits, and `saved_successfully` is emitted, exactly when no other member has the phone and storage does not fail. A failed save leaves the committed state unchanged. A committed edit writes exactly the scratch fields into the edited row; a committed add appends one member, with a fresh id, carrying them |
| MemberDialogViewModel.MemberDialogViewModel.constructor | viewmodels/member_dialog_viewmodel.py:21-36 | `is_editing` holds iff a member was given. In edit mode the scratch fields start as the member's, with `is_schedulable` made boolean; in add mode they start as "", "", True, None |
| MemberDialogViewModel.MemberDialogViewModel.SetName | viewmodels/member_dialog_viewmodel.py:43-45 | changes only the scratch name |
| MemberDialogViewModel.MemberDialogViewModel.SetPhoneNumber | viewmodels/member_dialog_viewmodel.py:51-53 | changes only the scratch phone |
| MemberDialogViewModel.MemberDialogViewModel.SetIsSchedulable | viewmodels/member_dialog_viewmodel.py:59-61 | changes only the scratch flag |
| MemberDialogViewModel.MemberDialogViewModel.SetRegionId | viewmodels/member_dialog_viewmodel.py:67-69 | changes only the scratch region |
| MemberDialogViewModel.MemberDialogViewModel.Save | viewmodels/member_dialog_viewmodel.py:85-110 | the committed state and the signal are those of the save specification, and the session ends in step with the database |
| MemberImporter.NameIndex | services/member_importer.py:42-43 | the name-to-id cache has exactly the table's names as keys, and a name's id comes from its last row |
| MemberImporter.MemberIndex | services/member_importer.py:44 | the member cache has exactly the members' names as keys, and each maps to its last member, still in the session |
| MemberImporter.MemberIndexStored | services/member_importer.py:44 | every entry of the initial member cache is a stored member in the session |
| MemberImporter.UpdateMember | services/member_importer.py:64-67 | writing an existing member overwrites its region, and its phone only when the row's phone is non-empty; every other member stays |
| MemberImporter.RejectedRows | services/member_importer.py:48-62 | an empty trimmed name, region or position fails with the required message. Failing that, an unknown region fails with a message naming it, before the position is looked at; failing that, an unknown position does. Each leaves the database and the cache unchanged |
| MemberImporter.AssignedKeepsKeys | services/member_importer.py:74-84 | adding an assignment only when its key is absent keeps the primary key unique |
| MemberImporter.UpdateMemberPhones | services/member_importer.py:64-67 | writing an attached member keeps ids unique, and breaks the phone constraint exactly when another member has the non-empty new phone |
| MemberImporter.AppendMemberPhones | services/member_importer.py:68-71 | inserting a member with a fresh id breaks the phone constraint exactly when its phone is taken |
| MemberImporter.ImportedMemberIsFresh | services/member_importer.py:69-71 | a new member's id is used by no stored member |
| MemberImporter.RowSucceedsIff | services/member_importer.py:46-91 | a row succeeds exactly when it passes the checks, writing its member clashes with no other member's phone, and storage does not fail |
| MemberImporter.AcceptedRowSucceedsIff | services/member_importer.py:64-87 | for a row that passed the checks: the flush fails only on a phone clash, and the commit succeeds exactly when there is no clash and no storage failure |
| MemberImporter.RowOutcome | services/member_importer.py:86-91 | every row yields its index and "success" or "failure"; a failed row leaves the database as it was; a successful row leaves it consistent, with the success message |
| MemberImporter.CommittedAssignment | services/member_importer.py:74-84 | after a committed row the member holds the position. A new assignment is added only when it did not hold it, and is primary iff the member had no primary position; no other assignment changes |
| MemberImporter.CommittedExistingMember | services/member_importer.py:64-67 | a committed row for a cached, attached member overwrites its region and its phone when non-empty; every other column and member stays and the cache is unchanged |
| MemberImporter.CommittedNewMember | services/member_importer.py:68-72 | a committed row for an unknown name inserts one schedulable member with a fresh id and the row's name, phone and region, and caches it under its name |
| MemberImporter.FailedCommitLeavesStaleMember | services/member_importer.py:68-90 | a new member whose commit fails stays cached, detached, under an id no stored member has. That id is the one the next inserted member receives |
| MemberImporter.AssignedKeepsPrimaries | services/member_importer.py:77-84 | a new assignment that is primary only for a member without one keeps "at most one primary each" and "an assigned member has a primary" |
| MemberImporter.RowKeepsPrimaries | services/member_importer.py:74-91 | no row gives a member a second primary position or leaves an assigned member without one |
| MemberImporter.MemberIdsKept | services/member_importer.py:64-72 | a member table that keeps its rows' ids and only grows keeps every stored id |
| MemberImporter.UpsertKeepsIds | services/member_importer.py:64-72 | writing the row's member keeps every stored member's id in place, and a created member is the new last row |
| MemberImporter.RowKeepsCacheValid | services/member_importer.py:46-91 | every row keeps the database consistent and every attached cache entry a stored member |
| MemberImporter.Steps | services/member_importer.py:46 | the row loop yields one result per row |
| MemberImporter.ImportAllResults | services/member_importer.py:46-91 | the run yields exactly one result per row, the `i`-th carrying index `i` |
| MemberImporter.ImportAllKeepsInvariants | services/member_importer.py:46-91 | from a valid state the whole run keeps the database consistent, the cache valid and the primary invariants |
| MemberImporter.StepsPrefix | services/member_importer.py:46 | the results of a prefix of the rows are the prefix of the results |
| MemberImporter.StepsRow | services/member_importer.py:46 | row `i` is processed from the state the earlier rows left, and yields the `i`-th result |
| MemberImporter.ImportAllPrefix | services/member_importer.py:46-91 | a row's result does not depend on later rows |
| MemberImporter.RowSeesEarlierCommits | services/member_importer.py:86-91 | each row starts from the state the earlier rows committed, and a failed row keeps it |
| MemberImporter.ImportRun.constructor | services/member_importer.py:34-44 | opens a session on the committed state and builds the three caches from it, the member cache valid |
| MemberImporter.ImportRun.UpsertRow | services/member_importer.py:64-72 | the member step: writes a cached member or inserts and flushes a new one and caches it; a failed flush is rolled back |
| MemberImporter.ImportRun.ProcessRow | services/member_importer.py:47-91 | one pass of the loop body yields the result and the new database and cache of the row step; the session ends in step with the database |
| MemberImporter.ImportRun.Next | services/member_importer.py:46-91 | resuming the generator at row `i` extends the run over the first `i` rows by that row's result |
| ImportViewModel.SuccessCount | viewmodels/import_viewmodel.py:27-28 | the number of successes is at most the number of results |
| ImportViewModel.SuccessCountSplits | viewmodels/import_viewmodel.py:27-30 | successes of concatenated results add up |
| ImportViewModel.SuccessCountIsSuccesses | viewmodels/import_viewmodel.py:27-30 | the success count is the number of results whose status is exactly "success" |
| ImportViewModel.Emitted | viewmodels/import_viewmodel.py:23-26 | the worker emits at most all the results |
| ImportViewModel.Generated | viewmodels/import_viewmodel.py:23-25 | after a stop the generator has produced at most one result more than were emitted |
| ImportViewModel.Emit | viewmodels/import_viewmodel.py:26-30 | emitting a result appends it; "success" counts as a success and any other status as a failure, so the two counts sum to the results emitted |
| ImportViewModel.ImportWorker.constructor | viewmodels/import_viewmodel.py:13-17 | keeps the rows and starts with the running flag set |
| ImportViewModel.ImportWorker.Stop | viewmodels/import_viewmodel.py:35-36 | clears the running flag |
| ImportViewModel.ImportWorker.Drain | viewmodels/import_viewmodel.py:23-30 | the emitted results are the run's first results up to the stop. The database holds the rows the generator processed, including the one produced and then dropped at the stop. The counts are the successes and failures emitted |
| ImportViewModel.ImportWorker.Run | viewmodels/import_viewmodel.py:19-33 | `progress` is a prefix of the import's results. `finished` carries the two counts once, after the loop, and they sum to the results emitted |
| ImportViewModel.NatToString | viewmodels/import_viewmodel.py:97 | a count prints as decimal digits, with no leading zero |
| ImportViewModel.NatToStringRoundTrip | viewmodels/import_viewmodel.py:97 | reading the printed digits back gives the count |
| ImportViewModel.NatToStringInjective | viewmodels/import_viewmodel.py:97 | distinct counts print differently |
| ImportViewModel.DigitsThenOther | viewmodels/import_viewmodel.py:97 | in digits followed by a non-digit, the digits are exactly what precedes the first non-digit |
| ImportViewModel.DigitsSplitUniquely | viewmodels/import_viewmodel.py:97 | a run of digits followed by text that starts with a non-digit splits one way only |
| ImportViewModel.SummaryTextReportsCounts | viewmodels/import_viewmodel.py:97 | the summary line starts with its fixed prefix, and different counts give different lines, so both counts can be read back |
| ImportViewModel.ImportViewModel.constructor | viewmodels/import_viewmodel.py:45-51 | starts with no rows loaded and no import running |
| ImportViewModel.ImportViewModel.SetIsImporting | viewmodels/import_viewmodel.py:57-60 | sets the flag, and emits `is_importing_changed` only when that changes it |
| ImportViewModel.ImportViewModel.LoadFileForPreview | viewmodels/import_viewmodel.py:63-70 | rows that were read replace the loaded ones and are announced; a file that could not be read changes nothing |
| ImportViewModel.ImportViewModel.StartImport | viewmodels/import_viewmodel.py:73-87 | with no rows loaded or an import running, nothing happens. Otherwise the flag is raised and announced, and a running worker is made for the loaded rows |
| ImportViewModel.ImportViewModel.OnImportFinished | viewmodels/import_viewmodel.py:92-98 | lowers (and announces) the flag and emits the summary line for the counts |
| MemberEditDialog.PrimaryCount | sample/member_edit_dialog.py:146 | the number of checked rows is at most the number of rows |
| MemberEditDialog.Names | sample/member_edit_dialog.py:181-182 | the list of names is the table's names, row by row |
| MemberEditDialog.Unchecked | sample/member_edit_dialog.py:105 | unchecking every radio button keeps the rows and their names |
| MemberEditDialog.IndexOfName | sample/member_edit_dialog.py:193-194 | the scan stops at the first row with the name, or past the end when there is none |
| MemberEditDialog.Drop | sample/member_edit_dialog.py:200 | removing row `k` keeps the other rows in order |
| MemberEditDialog.CheckRow | sample/member_edit_dialog.py:105 | checking one radio button of the exclusive group leaves only that one checked |
| MemberEditDialog.PrimaryCountZero | sample/member_edit_dialog.py:146 | no checked button exactly when no row is primary |
| MemberEditDialog.AppendRowKeepsExclusive | sample/member_edit_dialog.py:92-118 | adding a row keeps at most one primary, and appends its name |
| MemberEditDialog.AppendAllKeepsExclusive | sample/member_edit_dialog.py:142-143 | adding several rows keeps at most one primary, and appends their names in order |
| MemberEditDialog.LoadRowsSettled | sample/member_edit_dialog.py:140-147 | loading shows the given positions in order and leaves a non-empty table with exactly one primary, which is row 0 unless a loaded position was primary |
| MemberEditDialog.NoPrimaryAppended | sample/member_edit_dialog.py:142-143 | loading only non-primary positions checks no row |
| MemberEditDialog.AddRowsSpec | sample/member_edit_dialog.py:174-189 | an empty selection or a name already in the table changes nothing. Otherwise one row is appended, primary iff the table was empty. Names stay distinct and a settled table stays settled |
| MemberEditDialog.RemoveRowsNames | sample/member_edit_dialog.py:191-206 | removing a name not in the table changes nothing; otherwise exactly the first row with that name goes, the rest keep their order, and distinct names stay distinct |
| MemberEditDialog.RemoveRowsSettled | sample/member_edit_dialog.py:199-205 | removing keeps at most one primary and a settled table settled; removing the primary row when rows remain makes row 0 primary |
| MemberEditDialog.CheckRowSettled | sample/member_edit_dialog.py:105 | a click makes the clicked row the only primary |
| MemberEditDialog.SettledPassesValidation | sample/member_edit_dialog.py:156-158 | a settled table never fails the validation of `get_form_data` |
| MemberEditDialog.MemberEditDialog.constructor | sample/member_edit_dialog.py:29-50 | starts with an empty table and empty fields |
| MemberEditDialog.MemberEditDialog.AddRowToTable | sample/member_edit_dialog.py:92-118 | appends a row with the name; a checked new row unchecks the others |
| MemberEditDialog.MemberEditDialog.LoadData | sample/member_edit_dialog.py:122-147 | on a fresh dialog, fills name and phone, and fills the table with the member's positions, checking row 0 when none is checked |
| MemberEditDialog.MemberEditDialog.AddPositionToTable | sample/member_edit_dialog.py:174-189 | the table becomes the add specification applied to the selection |
| MemberEditDialog.MemberEditDialog.RemovePositionFromTable | sample/member_edit_dialog.py:191-206 | the scan removes the first row with the name and promotes row 0 if it was primary, as the remove specification says |
| MemberEditDialog.MemberEditDialog.ClickPrimary | sample/member_edit_dialog.py:105 | a click leaves only that row checked |
| MemberEditDialog.MemberEditDialog.GetFormData | sample/member_edit_dialog.py:149-170 | None exactly when rows exist but none is primary; otherwise the name, the phone and the rows in table order |
| Storage.Violated | models/position_model.py:8 | reports a broken constraint exactly when the state is not consistent |
| Storage.ConstraintTextInjective | viewmodels/position_dialog_viewmodel.py:35 | distinct constraints give distinct messages, so the name check in the error text identifies the name constraint |
| Storage.WriteOutcome | services/member_importer.py:86 | a write succeeds exactly when every constraint holds and storage does not fail; a broken constraint is an integrity error |
| Storage.Session.constructor | services/member_importer.py:34 | a new session sees exactly the committed state |
| Storage.Session.Flush | services/member_importer.py:71 | a flush raises exactly when a constraint is broken, with the first broken one |
| Storage.Session.Commit | services/member_importer.py:86 | on success the working state becomes the committed one; on failure the committed state is untouched |
| Storage.Session.Rollback | services/member_importer.py:90 | the working state returns to the committed one |

## Left out

- Qt rendering and wiring are not modelled: layouts, message boxes, the
  context menu, drag and drop, `expandAll`, and the connection of signals to
  slots. A signal the model emits is a returned value.
- Tree items are values (`Item(node, children, hidden)`), not `QTreeWidgetItem`
  objects that share identity. Move up/down is a function on the forest,
  addressed by the path of sibling indices to the current item.
- `_sort_items` does nothing in the source, so it has no counterpart.
- Threading is not modelled. `ImportWorker.run` is a sequential loop. A
  `stop()` from the other thread becomes the parameter `stopAt`: the index of
  the result during whose production the flag is cleared.
- `QThread` start, quit and wait, and `_on_progress_update` are not modelled.
  The latter only relays a result's three fields to another signal.
- File I/O is not modelled. `MemberImporter.preview_excel` is replaced by the
  parameter `read` of `LoadFileForPreview`: the rows read, or None when
  reading raised. The spreadsheet's cells are given as strings, as
  `astype(str)` makes them. An empty cell, which pandas turns into "nan", is
  not distinguished.
- Storage failures other than the uniqueness constraints are not modelled.
  A lost connection or a locked file, for example, is the parameter `fault`
  of each commit.
- `str(e)` of an integrity error is modelled as SQLite's constraint text. The
  SQL statement and parameters SQLAlchemy appends are left out.
- Foreign keys are not modelled. SQLite does not enforce them unless asked
  to.
- ORM internals are not modelled: the identity map, lazy loading, expiry.
  Autoflush before a query is folded into the commit. Only the explicit
  flush in `run_import` can raise before the commit.
- The `_parent_name_uc` and region-name unique constraints (from the region
  migrations) are not modelled. Neither is any constraint beyond unique ids,
  position names, phone numbers and assignment keys. The name constraint on
  regions is not exercised by the modelled code.
- Text.Lower: lower-cases ASCII letters only; Python's `str.lower` also
  lower-cases other scripts.
- PositionRepository.Matching: `ILIKE '%term%'` is modelled as
  ASCII-case-insensitive substring search. `%` and `_` inside the term are
  treated as ordinary characters, not wildcards.
- TreeRepository.DescendantIds: requires the table to be acyclic. The
  source recurses without end only when `r` lies on a cycle (is its own
  descendant); a cycle elsewhere in the table does no harm. Acyclicity is
  stronger than needed, but the program keeps it: the parent choices it
  offers are exactly the safe ones (`TreeRepository.OfferedParentsAreExactlySafe`).
- TreeWidget.Build: requires unique ids and an acyclic table, as the subtree
  measure needs. `DisplayItems` requires only unique ids, which the primary
  key guarantees. On a cycle the widget would build items that never reach
  the top level; the model does not describe that forest.
- `load_positions` reads the sort column into a local variable that is never
  used. The model latches the column and, like the source, orders only by
  `(parent_id, rank)`.
- `load_positions` can raise while querying. That failure is not modelled,
  because the model's queries cannot fail.
- MemberEditDialog.MemberEditDialog.LoadData: requires an empty table, as
  on the fresh dialog it is called on (sample/member_edit_dialog.py:216). On
  a reload, `setRowCount(0)` leaves the old radio buttons in the button group
  and `addItems` appends to the combo box a second time, so the check at
  :146 could see a stale checked button; a reload is not modelled.
- `MemberDialogViewModel.load_regions` is not modelled: a plain query whose
  result only fills a combo box.
- The source constructs `PositionDialogViewModel` with no arguments
  (viewmodels/position_dialog_viewmodel.py:10-12). It opens a session of its
  own for each save; in the model that is the `Database` passed to
  `SavePosition`.
- An import result's `row_index` is the row's 0-based position in the
  spreadsheet. This assumes pandas' default index labels.
- Region and position share one row type. Regions' `rank` is unused and stays NULL.
- A duplicate phone number gets no message of its own. The member dialog's
  save only rolls back and emits nothing
  (viewmodels/member_dialog_viewmodel.py:107-109), and the importer reports
  `str(e)`; the model does the same.
- Only the unique position name (models/position_model.py:8) is checked. No
  `(parent_id, name)` constraint on regions or positions is modelled.
