# TODO-Tracker task table, in Dafny

This project models the core of a single-user desktop task tracker
(`todo.py`): the in-memory table of tasks kept by `ItemHandler` and the
rules that the window layer (`GUI`) applies to it. It then proves
properties of that model.

- **Task store** (`store.dfy`, class `Store.ItemHandler`). The table is a
  `seq<Task>` field. `AddItem` appends a row. `DeleteIncompleteItem` drops
  every incomplete row with a name. `UpdateIncompleteItem` writes a patch,
  cell by cell, into the first incomplete row with a name. Before that it
  refuses a rename to any name already in the table. `AddItem` states its
  new table outright (the old rows followed by the new one). The other two
  are proved against functions on sequences: `RemoveIncomplete` and
  `UpdateIncomplete`. The insert rules of the Insert tab are the function
  `Insert`, which `Gui.Gui.InsertItem` is proved against.
- **Rows and cells** (`tasks.dfy`). A task is a record with the table's
  twelve columns. A patch (the source's `col: val` dictionary) is a
  sequence of typed `Cell`s. `CellAt` and `SetCell` read and write one
  column.
- **Optional values** (`wrappers.dfy`). The `Option` type every module
  uses.
- **Ordinal categories** (`categories.dfy`). Length has 9 labels, priority
  5, urgency 5 and enjoyability 3. Each category is a datatype whose `Rank`
  is its position in the declared list. Every comparison uses the rank,
  never the label text.
- **View order** (`ordering.dfy`, and `Gui.Gui.DispItems` in `gui.dfy`).
  This covers the `(sort_col, sort_asc)` toggle and the sort by
  `(column, creation_date)` in the chosen direction. It also covers the
  rows the grid draws: the incomplete ones.
- **Choose** (`choose.dfy`). This is the candidate mask, and the pick of one
  candidate by a drawn position.
- **Window rules** (`gui.dfy`, class `Gui.Gui`). This covers the validation
  of `insert_item`, `commit_item`, and the edit window's Apply and Delete.
  Each one preserves the invariant that names are unique among incomplete
  tasks.

Behaviour of `todo.py` that the model keeps:
- The rename check of `update_incomplete_item` looks at every row,
  completed ones included (todo.py:105). The insert check looks only at
  incomplete rows (todo.py:446).
- A re-display with `keep_sort=True` (after insert, commit and edit) resets
  the direction to ascending (todo.py:200-203). It does not keep the
  previous direction.
- Delete drops every incomplete row with the name (todo.py:87-93). Update
  writes only the first one (todo.py:108).
- The rename check comes before the row lookup (todo.py:104-108). A
  taken-name rename of a missing task is therefore refused, not "not found".
- A failed lookup is an `IndexError` in the code. Here it is the outcome
  `NotFound`, with the table unchanged, because nothing is written before
  the lookup. `commit_item` then skips its re-display, as the exception
  would.
- The edit window accepts a rename to the empty name. Only insert refuses
  an empty name (todo.py:442).

## Model

| member | source | states |
|---|---|---|
| `Categories.LengthAt` | todo.py:40-50 | the nine length categories in declared order; the category at position r has rank r |
| `Categories.PriorityAt` | todo.py:52-58 | the five priority categories in declared order; position equals rank |
| `Categories.UrgencyAt` | todo.py:60-66 | the five urgency categories in declared order; position equals rank |
| `Categories.EnjoyabilityAt` | todo.py:68-72 | the three enjoyability categories in declared order; position equals rank |
| `Categories.LengthRankInjective` | todo.py:134-138 | two length categories with the same rank are equal, so comparing by rank is comparing by declared position |
| `Categories.PriorityRankInjective` | todo.py:134-138 | two priority categories with the same rank are equal, so comparing by rank is comparing by declared position |
| `Categories.UrgencyRankInjective` | todo.py:134-138 | two urgency categories with the same rank are equal, so comparing by rank is comparing by declared position |
| `Categories.EnjoyabilityRankInjective` | todo.py:134-138 | two enjoyability categories with the same rank are equal, so comparing by rank is comparing by declared position |
| `Categories.IndexOf` | todo.py:135-138 | position of the first occurrence of a label in a category list; none exactly when the label is not in the list |
| `Categories.IndexOfDistinct` | todo.py:135-138 | in a list without repeated labels, looking up the k-th label gives k |
| `Categories.LabelsDistinct` | todo.py:39-73 | no category list repeats a label |
| `Categories.ParseLength` | todo.py:134-138 | a stored length label becomes the category with that label; a label outside the list has no category |
| `Categories.ParsePriority` | todo.py:134-138 | the same for priority labels |
| `Categories.ParseUrgency` | todo.py:134-138 | the same for urgency labels |
| `Categories.ParseEnjoyability` | todo.py:134-138 | the same for enjoyability labels |
| `Categories.LengthLabelRoundTrip` | todo.py:40-50 | every length category is recovered from its label |
| `Categories.PriorityLabelRoundTrip` | todo.py:52-58 | every priority category is recovered from its label |
| `Categories.UrgencyLabelRoundTrip` | todo.py:60-66 | every urgency category is recovered from its label |
| `Categories.EnjoyabilityLabelRoundTrip` | todo.py:68-72 | every enjoyability category is recovered from its label |
| `Tasks.CellAt` | todo.py:21-36 | reading a row's cell in a column gives a cell of that column |
| `Tasks.RowExtensionality` | todo.py:21-36 | two rows with equal cells in every column are the same row |
| `Tasks.SetCell` | todo.py:110 | writing a cell sets that column to the cell and leaves every other column unchanged |
| `Tasks.LastCellFor` | todo.py:102 | the patch's value for a column is a cell of the patch for that column with no later cell for it, i.e. the last one; none exactly when no cell targets the column |
| `Tasks.ApplyCells` | todo.py:109-110 | defines a patch's effect on a row: its cells written one after another, in the patch's order |
| `Tasks.ApplyCellsAt` | todo.py:109-110 | after a patch each column holds the patch's last cell for it, or its old value when the patch does not mention it |
| `Tasks.ApplyCellsName` | todo.py:109-110 | a patched row's name is the patch's last name value, or the old name |
| `Tasks.ApplyCellsComplete` | todo.py:109-110 | a patch without a complete cell keeps the completion flag |
| `Store.IsIncompleteNamed` | todo.py:88-89 | defines the row selector of delete, update and edit: the row is not complete and carries the name |
| `Store.NameInTable` | todo.py:105 | defines the rename check: some row, completed or not, carries the name |
| `Store.IncompleteNameUsed` | todo.py:445-447 | defines the insert check: some incomplete row carries the name |
| `Store.UniqueIncomplete` | todo.py:445-448 | defines the table invariant: no two incomplete rows share a name |
| `Store.RemoveIncomplete` | todo.py:87-93 | defines deletion: the table without the rows that are incomplete and carry the name, the rest in their order |
| `Store.RemoveIncompleteAppend` | todo.py:87-93 | deletion acts row by row: it distributes over concatenation, so surviving rows keep their order |
| `Store.RemoveIncompleteMembers` | todo.py:87-93 | a row survives deletion exactly when it is not an incomplete row with that name; completed rows with the name stay |
| `Store.RemoveIncompleteNoMatch` | todo.py:84-94 | deleting a name no incomplete row carries changes nothing and is no error |
| `Store.RemoveIncompleteUnique` | todo.py:84-94 | deletion keeps names unique among incomplete rows |
| `Store.UniqueAppend` | todo.py:445-465 | appending a completed row, or one whose name no incomplete row holds, keeps names unique |
| `Store.FindIncomplete` | todo.py:108 | position of the first incomplete row with the name; none exactly when there is no such row |
| `Store.RenameTarget` | todo.py:102 | a patch renames exactly when its name value differs from the current name; that value is the new name |
| `Store.UpdateIncomplete` | todo.py:99-112 | defines update: a rename to a name any row holds is refused; otherwise the first incomplete row with the name gets the patch; no such row leaves the table as it was |
| `Store.UpdateAllOrNothing` | todo.py:99-112 | a refused rename (new name anywhere in the table) or a missing row leaves the whole table unchanged, and these are the only failures |
| `Store.RenameToCompletedNameRefused` | todo.py:104-106 | renaming to a name that only completed rows carry (one or several) is refused, although inserting any task with that name appends it |
| `Store.UpdateTouchesOnlyPatchedCells` | todo.py:108-112 | a successful patch changes only the first matching row, and in it only the patched columns; creation_date and the others keep their values |
| `Store.UpdatePreservesUnique` | todo.py:99-112 | a patch keeps names unique among incomplete rows |
| `Store.NewTask` | todo.py:450-463 | a new row has the typed name, is not in progress, is not complete, and is stamped with the current time |
| `Store.Insert` | todo.py:441-465 | defines the insert rules: an empty name, then a name held by an incomplete row, is refused; otherwise the row is appended |
| `Store.InsertOutcomes` | todo.py:441-465 | insertion is refused for an empty name or a name of an incomplete row, with the table unchanged; otherwise exactly the new row is appended |
| `Store.InsertPreservesUnique` | todo.py:441-465 | insertion keeps names unique among incomplete rows |
| `Store.CommitPatch` | todo.py:261-263 | defines the commit patch: a single cell setting in_progress to true |
| `Store.CommitOnlyStartsTask` | todo.py:259-263 | committing never trips the rename check; when the task exists, it sets in_progress on its first incomplete row and changes nothing else |
| `Store.FindIncompleteUnique` | todo.py:108 | with unique names, the lookup by an incomplete row's name finds that row |
| `Store.CommitRow` | todo.py:259-263 | with unique names, committing an incomplete row's name starts exactly that row |
| `Store.UniquePermutation` | todo.py:205-210 | reordering the rows keeps names unique among incomplete rows |
| `Store.ItemHandler.Load` | todo.py:119-128 | the table is the stored rows, or empty when there is no file |
| `Store.ItemHandler.AddItem` | todo.py:79-81 | the new row goes at the end; the other rows are unchanged and in order |
| `Store.ItemHandler.DeleteIncompleteItem` | todo.py:84-94 | the table becomes the rows that are not incomplete with that name |
| `Store.ItemHandler.UpdateIncompleteItem` | todo.py:99-112 | the outcome and the new table are those of the update function: rename check first, then the cells written into the first match |
| `Ordering.NextSortAsc` | todo.py:200-204 | defines the new direction: the opposite of the old one when the same column is clicked without keep_sort, ascending otherwise |
| `Ordering.StrLess` | todo.py:205-209 | defines the order of the name key: character by character, a proper prefix first |
| `Ordering.NumericKey` | todo.py:205-209 | defines the sort key of every column but the name: the rank for length, priority, urgency and enjoyability (declared order, not label text), the timestamp for creation_date, false before true for in_progress |
| `Ordering.PrimaryLess` | todo.py:205-209 | defines the strict order on the chosen column: the name order for the name column, the numeric key for the others |
| `Ordering.PrimarySame` | todo.py:205-209 | defines a tie on the chosen column: equal names, or equal numeric keys |
| `Ordering.KeyLeq` | todo.py:205-209 | defines the ascending order on the key (column, creation_date): the column first, creation_date on a tie |
| `Ordering.InOrder` | todo.py:205-209 | defines the order in the chosen direction: both keys reversed when descending |
| `Ordering.ToggleTwice` | todo.py:200-204 | clicking the same column twice restores the sort direction |
| `Ordering.ToggleResets` | todo.py:200-204 | a new column, or a re-display with keep_sort, sorts ascending; only a repeated click without keep_sort gives descending |
| `Ordering.InOrderTotal` | todo.py:205-209 | any two rows are comparable by (column, creation_date) in either direction |
| `Ordering.InOrderTransitive` | todo.py:205-209 | the order by (column, creation_date) is transitive in either direction |
| `Ordering.InOrderAntisymmetric` | todo.py:205-209 | rows that are in order both ways have the same primary key and creation date |
| `Ordering.PrimarySameCategory` | todo.py:205-209 | rows tied on a category sort column hold the same category, since ranks identify categories |
| `Ordering.SortedUnique` | todo.py:205-210 | with distinct creation dates, sorting a table already sorted the same way returns the same order |
| `Ordering.PrioritySortExample` | todo.py:134-138 | ascending priority puts Very High before Medium before Low, whatever their creation dates: rank order, not label order |
| `Ordering.SortedBy` | todo.py:205-209 | the sort returns the same rows, ordered by (column, creation_date) in the chosen direction |
| `Ordering.Active` | todo.py:238-240 | defines the drawn rows: the incomplete rows of the table, in table order |
| `Ordering.ActiveMembers` | todo.py:238-240 | the grid draws exactly the incomplete rows |
| `Ordering.ActiveSorted` | todo.py:238-240 | the drawn rows of a sorted table are in the same order |
| `Choose.IsCandidate` | todo.py:280-286 | defines the mask: incomplete, not in progress, length rank between the two bounds, and priority, urgency and enjoyability ranks each at most their bound |
| `Choose.Candidates` | todo.py:279-287 | defines the candidates: the rows that pass the mask, in table order |
| `Choose.CandidatesMembers` | todo.py:279-287 | the candidates are exactly the rows that are incomplete, not in progress, have length rank between the two bounds, and have priority, urgency and enjoyability ranks each at most their bound |
| `Choose.CandidatesAppend` | todo.py:279-287 | the mask acts row by row, so candidates keep the table's order |
| `Choose.NoCandidates` | todo.py:288-291 | a table with no row passing the mask has no candidates |
| `Choose.ChooseItem` | todo.py:288-292 | nothing is chosen exactly when no row passes the mask; otherwise the chosen row is a row of the table that passes it |
| `Choose.ChooseReachesEveryCandidate` | todo.py:288-292 | every candidate is returned by some draw |
| `Choose.ChooseSingleCandidate` | todo.py:288-292 | with a single candidate every draw returns it |
| `Choose.CommitChosen` | todo.py:259-263 | committing the chosen task starts exactly its row and removes just it from the candidates, the others staying in order |
| `Choose.StartedLeavesCandidates` | todo.py:279-287 | marking a candidate row in progress removes it, and only it, from the candidates, the others staying in order |
| `Gui.EditPatch` | todo.py:416-427 | the edit window's patch never writes creation_date, start_date or deadline |
| `Gui.EditKeepsCreationDates` | todo.py:415-428 | a patch without a creation_date cell leaves every creation date unchanged |
| `Gui.Gui.constructor` | todo.py:562 | the first display sorts by creation_date from the empty sort column, hence ascending, holding the same rows |
| `Gui.Gui.DispItems` | todo.py:198-256 | the sort state follows the toggle rule; the table holds the same rows, sorted in the new direction; the drawn rows are its incomplete rows in that order; uniqueness is preserved |
| `Gui.Gui.InsertItem` | todo.py:440-476 | an empty or incomplete-held name is refused with table and view unchanged; otherwise the table gains exactly the new row and is re-sorted ascending; uniqueness is preserved |
| `Gui.Gui.CommitItem` | todo.py:259-264 | the row is patched with in_progress only, never refused for its name; a missing task changes nothing; otherwise the table is re-sorted ascending; uniqueness is preserved; with unique incomplete names the table afterwards holds exactly the old rows with the named incomplete row marked in progress |
| `Gui.Gui.EditApply` | todo.py:415-432 | the nine edit fields go through the update rules as one patch; uniqueness is preserved |
| `Gui.Gui.EditDelete` | todo.py:435-437 | the task's incomplete rows are removed; uniqueness is preserved |

## Left out

- Writing the table to `items.csv` after each change, and reading it back
  (`export_items`, `pd.read_csv`). This is file I/O through pandas. The
  rows a load produces are a parameter of `Store.ItemHandler.Load`, and
  the save/load round trip is not stated.
- The dtype coercion of `set_item_dtypes` (`astype`). Only its effect on
  ordering is kept: the category columns compare by declared position
  (`Rank`, and the `Parse…` functions).
- All tkinter code: widgets, labels, colours, message boxes, clearing the
  form after insert, the Choose result frame, and the edit window's
  construction and `wait_window`. Form values and combo-box selections are
  parameters. The re-display that `edit_item` runs after its window closes
  is `Gui.Gui.DispItems` with keep_sort, which the caller invokes.
- `randint` and `datetime.now()`. The drawn position and the timestamp
  are parameters. Uniform distribution is not modelled: only that every
  candidate is reachable.
- Timestamps are plain integers. An absent start_date or deadline (NaT)
  is `None`.
- Pandas index labels. `update_incomplete_item` uses an index label as a
  position (todo.py:108-110). The model uses positions. The two agree
  whenever the GUI calls update, because every mutation is followed by
  `disp_items`, which renumbers the rows.
- Only the seven columns of the View tab's header buttons can be sort
  keys.
- Ordering.SortedBy: does not state that rows with equal (column,
  creation_date) keep their relative order. pandas' multi-key sort keeps
  it. With distinct creation dates no two rows tie
  (`Ordering.SortedUnique`).
