/**
 * The rules of the window layer (class GUI) that act on the table: the
 * sort state of the View tab and its re-display, the validation of the
 * Insert tab, committing a chosen task, and the Apply and Delete buttons
 * of the edit window. Widgets, message boxes and the form fields are not
 * modelled: what the user typed or selected arrives as parameters, and
 * the clock as `now`.
 */
module Gui {
  import opened Wrappers
  import opened Categories
  import opened Tasks
  import opened Store
  import opened Ordering

  /** The patch the edit window's Apply button sends, in its key order. */
  function EditPatch(newName: string, description: string, length: Length, reviewable: bool,
                     inProgress: bool, priority: Priority, urgency: Urgency,
                     enjoyability: Enjoyability, complete: bool): (cells: seq<Cell>)
    ensures forall k :: 0 <= k < |cells| ==>
              cells[k].Column() != CreationDateCol &&
              cells[k].Column() != StartDateCol &&
              cells[k].Column() != DeadlineCol
  {
    [NameCell(newName), DescriptionCell(description), LengthCell(length),
     ReviewableCell(reviewable), InProgressCell(inProgress), PriorityCell(priority),
     UrgencyCell(urgency), EnjoyabilityCell(enjoyability), CompleteCell(complete)]
  }

  /** An edit never changes a creation date, whatever its outcome. */
  lemma EditKeepsCreationDates(items: seq<Task>, name: string, cells: seq<Cell>)
    requires forall k :: 0 <= k < |cells| ==> cells[k].Column() != CreationDateCol
    ensures |UpdateIncomplete(items, name, cells).1| == |items|
    ensures forall k :: 0 <= k < |items| ==>
              UpdateIncomplete(items, name, cells).1[k].creationDate == items[k].creationDate
  {
    if UpdateIncomplete(items, name, cells).0 == Updated {
      UpdateTouchesOnlyPatchedCells(items, name, cells, CreationDateCol);
    }
  }

  class Gui {
    const handler: ItemHandler
    /** The column the View tab was last sorted by. */
    var sortCol: SortColumn
    /** Whether that sort was ascending. */
    var sortAsc: bool

    /** The table invariant the window layer maintains. */
    ghost predicate Valid()
      reads handler
    {
      UniqueIncomplete(handler.items)
    }

    /**
     * Building the window: the View tab is first drawn sorted by
     * creation_date, from the empty sort column, hence ascending.
     */
    constructor (handler: ItemHandler)
      modifies handler
      ensures this.handler == handler
      ensures sortCol == ByCreationDate && sortAsc
      ensures multiset(handler.items) == multiset(old(handler.items))
      ensures Sorted(handler.items, ByCreationDate, true)
      ensures old(UniqueIncomplete(handler.items)) ==> Valid()
    {
      this.handler := handler;
      sortCol := ByCreationDate;
      sortAsc := NextSortAsc(None, true, ByCreationDate, false);
      new;
      ghost var before := handler.items;
      var sorted := SortedBy(handler.items, ByCreationDate, sortAsc);
      handler.items := sorted;
      if UniqueIncomplete(before) {
        UniquePermutation(before, handler.items);
      }
    }

    /**
     * disp_items: updates the sort state by the toggle rule, sorts the
     * table by `(col, creation_date)` in the new direction, and returns the
     * rows the grid draws: the incomplete ones, in that order.
     */
    method DispItems(col: SortColumn, keepSort: bool) returns (shown: seq<Task>)
      modifies this, handler
      ensures sortCol == col
      ensures sortAsc == NextSortAsc(Some(old(sortCol)), old(sortAsc), col, keepSort)
      ensures multiset(handler.items) == multiset(old(handler.items))
      ensures Sorted(handler.items, col, sortAsc)
      ensures shown == Active(handler.items) && Sorted(shown, col, sortAsc)
      ensures old(Valid()) ==> Valid()
    {
      ghost var before := handler.items;
      sortAsc := NextSortAsc(Some(sortCol), sortAsc, col, keepSort);
      sortCol := col;
      var sorted := SortedBy(handler.items, col, sortAsc);
      handler.items := sorted;
      if UniqueIncomplete(before) {
        UniquePermutation(before, handler.items);
      }
      shown := [];
      var i := 0;
      while i < |sorted|
        invariant 0 <= i <= |sorted|
        invariant shown == Active(sorted[..i])
      {
        if !sorted[i].complete {
          shown := shown + [sorted[i]];
        }
        assert sorted[..i + 1][..i] == sorted[..i];
        i := i + 1;
      }
      assert sorted[..i] == sorted;
      ActiveSorted(sorted, col, sortAsc);
    }

    /**
     * insert_item: refuses an empty name and a name held by an incomplete
     * task, leaving table and view alone; otherwise appends the new row and
     * re-displays with keep_sort, which sorts ascending.
     */
    method InsertItem(name: string, description: string, length: Length, reviewable: bool,
                      priority: Priority, urgency: Urgency, enjoyability: Enjoyability,
                      now: Timestamp) returns (outcome: InsertOutcome)
      modifies this, handler
      ensures var t := NewTask(name, description, length, reviewable, priority, urgency, enjoyability, now);
              outcome == Insert(old(handler.items), t).0 &&
              multiset(handler.items) == multiset(Insert(old(handler.items), t).1)
      ensures outcome != Inserted ==>
                handler.items == old(handler.items) && sortCol == old(sortCol) && sortAsc == old(sortAsc)
      ensures outcome == Inserted ==>
                sortCol == old(sortCol) && sortAsc && Sorted(handler.items, sortCol, true)
      ensures old(Valid()) ==> Valid()
    {
      if name == "" {
        return EmptyName;
      }
      if IncompleteNameUsed(handler.items, name) {
        return NameInUse;
      }
      var item := NewTask(name, description, length, reviewable, priority, urgency, enjoyability, now);
      ghost var before := handler.items;
      handler.AddItem(item);
      if UniqueIncomplete(before) {
        InsertPreservesUnique(before, item);
      }
      var _ := DispItems(sortCol, true);
      outcome := Inserted;
    }

    /**
     * commit_item: sets in_progress on the task and re-displays with
     * keep_sort. When the task is gone the lookup fails before the
     * re-display, so nothing changes. With unique incomplete names the
     * task's own row is the one started, and no other row changes.
     */
    method CommitItem(name: string) returns (outcome: UpdateOutcome)
      modifies this, handler
      ensures outcome == UpdateIncomplete(old(handler.items), name, CommitPatch).0
      ensures outcome != NameTaken
      ensures multiset(handler.items) == multiset(UpdateIncomplete(old(handler.items), name, CommitPatch).1)
      ensures outcome == NotFound ==>
                handler.items == old(handler.items) && sortCol == old(sortCol) && sortAsc == old(sortAsc)
      ensures outcome == Updated ==>
                sortCol == old(sortCol) && sortAsc && Sorted(handler.items, sortCol, true)
      ensures old(Valid()) ==> Valid()
      ensures old(Valid()) ==>
                forall k :: 0 <= k < |old(handler.items)| && IsIncompleteNamed(old(handler.items)[k], name) ==>
                  outcome == Updated &&
                  multiset(handler.items) ==
                    multiset(old(handler.items)[k := old(handler.items)[k].(inProgress := true)])
    {
      ghost var before := handler.items;
      forall k | 0 <= k < |before| && IsIncompleteNamed(before[k], name) && UniqueIncomplete(before)
        ensures UpdateIncomplete(before, name, CommitPatch) == (Updated, before[k := before[k].(inProgress := true)])
      {
        CommitRow(before, k);
      }
      outcome := handler.UpdateIncompleteItem(name, CommitPatch);
      if UniqueIncomplete(before) {
        UpdatePreservesUnique(before, name, CommitPatch);
      }
      CommitOnlyStartsTask(before, name);
      if outcome == Updated {
        var _ := DispItems(sortCol, true);
      }
    }

    /**
     * edit_apply: sends the edit window's nine fields as one patch. A
     * rename to a name already in the table is refused (the error box) and
     * nothing changes.
     */
    method EditApply(name: string, newName: string, description: string, length: Length,
                     reviewable: bool, inProgress: bool, priority: Priority, urgency: Urgency,
                     enjoyability: Enjoyability, complete: bool) returns (outcome: UpdateOutcome)
      modifies handler
      ensures (outcome, handler.items) ==
                UpdateIncomplete(old(handler.items), name,
                  EditPatch(newName, description, length, reviewable, inProgress,
                            priority, urgency, enjoyability, complete))
      ensures old(Valid()) ==> Valid()
    {
      var patch := EditPatch(newName, description, length, reviewable, inProgress,
                             priority, urgency, enjoyability, complete);
      ghost var before := handler.items;
      outcome := handler.UpdateIncompleteItem(name, patch);
      if UniqueIncomplete(before) {
        UpdatePreservesUnique(before, name, patch);
      }
    }

    /** edit_delete: removes the incomplete task with this name. */
    method EditDelete(name: string)
      modifies handler
      ensures handler.items == RemoveIncomplete(old(handler.items), name)
      ensures old(Valid()) ==> Valid()
    {
      ghost var before := handler.items;
      handler.DeleteIncompleteItem(name);
      if UniqueIncomplete(before) {
        RemoveIncompleteUnique(before, name);
      }
    }
  }
}
