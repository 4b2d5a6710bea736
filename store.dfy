/**
 * The task table and the rules that change it (class ItemHandler), with
 * the validation that the window layer performs before inserting a row
 * (insert_item) and the outcome of a patch (update_incomplete_item).
 *
 * Each operation is a method on the `items` field. AddItem states its new
 * table outright; DeleteIncompleteItem and UpdateIncompleteItem are proved
 * against the functions RemoveIncomplete and UpdateIncomplete. The insert
 * rules are the function Insert, which the window layer's InsertItem is
 * proved against. The lemmas below state what those functions guarantee,
 * chief among them that names stay unique among incomplete rows.
 */
module Store {
  import opened Wrappers
  import opened Categories
  import opened Tasks

  /** `complete == False and name == name`: the row selector of delete, update and edit. */
  predicate IsIncompleteNamed(t: Task, name: string) {
    !t.complete && t.name == name
  }

  /** Some row, completed or not, has this name (the rename check). */
  predicate NameInTable(items: seq<Task>, name: string) {
    exists i :: 0 <= i < |items| && items[i].name == name
  }

  /** Some incomplete row has this name (the insert check). */
  predicate IncompleteNameUsed(items: seq<Task>, name: string) {
    exists i :: 0 <= i < |items| && IsIncompleteNamed(items[i], name)
  }

  /** The table invariant: no two incomplete rows share a name. */
  predicate UniqueIncomplete(items: seq<Task>) {
    forall i, j :: 0 <= i < j < |items| && !items[i].complete && !items[j].complete ==>
      items[i].name != items[j].name
  }

  // ---------------------------------------------------------------- delete

  /** The table without its incomplete rows named `name`, other rows in their order. */
  function RemoveIncomplete(items: seq<Task>, name: string): (r: seq<Task>)
  {
    if items == [] then []
    else
      var last := items[|items| - 1];
      RemoveIncomplete(items[..|items| - 1], name) +
        (if IsIncompleteNamed(last, name) then [] else [last])
  }

  /** Removal acts row by row: it distributes over concatenation, so order is kept. */
  lemma {:induction false} RemoveIncompleteAppend(a: seq<Task>, b: seq<Task>, name: string)
    ensures RemoveIncomplete(a + b, name) == RemoveIncomplete(a, name) + RemoveIncomplete(b, name)
  {
    if b == [] {
      assert a + b == a;
    } else {
      var last := b[|b| - 1];
      assert (a + b)[..|a + b| - 1] == a + b[..|b| - 1];
      RemoveIncompleteAppend(a, b[..|b| - 1], name);
    }
  }

  /** A row survives exactly when it is not an incomplete row named `name`. */
  lemma {:induction false} RemoveIncompleteMembers(items: seq<Task>, name: string, t: Task)
    ensures t in RemoveIncomplete(items, name) <==> t in items && !IsIncompleteNamed(t, name)
  {
    if items != [] {
      var prefix := items[..|items| - 1];
      RemoveIncompleteMembers(prefix, name, t);
      assert items == prefix + [items[|items| - 1]];
    }
  }

  /** Deleting a name that no incomplete row carries changes nothing. */
  lemma {:induction false} RemoveIncompleteNoMatch(items: seq<Task>, name: string)
    requires !IncompleteNameUsed(items, name)
    ensures RemoveIncomplete(items, name) == items
  {
    if items != [] {
      var prefix := items[..|items| - 1];
      assert !IncompleteNameUsed(prefix, name) by {
        forall i | 0 <= i < |prefix| ensures !IsIncompleteNamed(prefix[i], name) {
          assert prefix[i] == items[i];
        }
      }
      RemoveIncompleteNoMatch(prefix, name);
      assert items == prefix + [items[|items| - 1]];
    }
  }

  /** Appending a row keeps names unique when it is completed or its name is free. */
  lemma UniqueAppend(items: seq<Task>, t: Task)
    requires UniqueIncomplete(items)
    requires t.complete || !IncompleteNameUsed(items, t.name)
    ensures UniqueIncomplete(items + [t])
  {
    var s := items + [t];
    forall i, j | 0 <= i < j < |s| && !s[i].complete && !s[j].complete
      ensures s[i].name != s[j].name
    {
      if j == |items| {
        assert !IsIncompleteNamed(items[i], t.name);
      }
    }
  }

  /** Removal keeps names unique. */
  lemma {:induction false} RemoveIncompleteUnique(items: seq<Task>, name: string)
    requires UniqueIncomplete(items)
    ensures UniqueIncomplete(RemoveIncomplete(items, name))
  {
    if items != [] {
      var prefix := items[..|items| - 1];
      var last := items[|items| - 1];
      RemoveIncompleteUnique(prefix, name);
      var kept := RemoveIncomplete(prefix, name);
      if !last.complete && !IsIncompleteNamed(last, name) {
        assert !IncompleteNameUsed(kept, last.name) by {
          forall i | 0 <= i < |kept| ensures !IsIncompleteNamed(kept[i], last.name) {
            RemoveIncompleteMembers(prefix, name, kept[i]);
            var k :| 0 <= k < |prefix| && prefix[k] == kept[i];
            assert items[k] == kept[i];
          }
        }
        UniqueAppend(kept, last);
      }
    }
  }

  // ---------------------------------------------------------------- update

  /** What a patch did: applied, refused for a taken name, or found no row (IndexError). */
  datatype UpdateOutcome = Updated | NameTaken | NotFound

  /** Position of the first incomplete row named `name` (`.index[0]`). */
  function FindIncomplete(items: seq<Task>, name: string): (r: Option<nat>)
    ensures r.None? <==> !IncompleteNameUsed(items, name)
    ensures r.Some? ==> r.value < |items| && IsIncompleteNamed(items[r.value], name)
    ensures r.Some? ==> forall j :: 0 <= j < r.value ==> !IsIncompleteNamed(items[j], name)
  {
    if items == [] then None
    else if IsIncompleteNamed(items[0], name) then Some(0)
    else match FindIncomplete(items[1..], name)
      case None => None
      case Some(k) => Some(k + 1)
  }

  /**
   * The new name a patch asks for, when it is a rename: a name cell whose
   * value differs from the current name. A name cell equal to the current
   * name is not a rename.
   */
  function RenameTarget(name: string, cells: seq<Cell>): (r: Option<string>)
    ensures r.Some? <==> exists k :: 0 <= k < |cells| && cells[k].Column() == NameCol &&
                                     LastCellFor(cells, NameCol).value.name != name
    ensures r.Some? ==> r.value != name && Some(NameCell(r.value)) == LastCellFor(cells, NameCol)
  {
    match LastCellFor(cells, NameCol)
    case None => None
    case Some(c) => if c.name != name then Some(c.name) else None
  }

  /**
   * update_incomplete_item as a function of the table: the rename check
   * against every name in the table comes first; then the first incomplete
   * row named `name` receives the patch cells; without such a row the
   * lookup fails and nothing is written.
   */
  function UpdateIncomplete(items: seq<Task>, name: string, cells: seq<Cell>): (r: (UpdateOutcome, seq<Task>))
  {
    var target := RenameTarget(name, cells);
    if target.Some? && NameInTable(items, target.value) then (NameTaken, items)
    else match FindIncomplete(items, name)
      case None => (NotFound, items)
      case Some(i) => (Updated, items[i := ApplyCells(items[i], cells)])
  }

  /** A refused or failed patch leaves the whole table as it was. */
  lemma UpdateAllOrNothing(items: seq<Task>, name: string, cells: seq<Cell>)
    ensures UpdateIncomplete(items, name, cells).0 != Updated ==>
              UpdateIncomplete(items, name, cells).1 == items
    ensures UpdateIncomplete(items, name, cells).0 == NameTaken <==>
              RenameTarget(name, cells).Some? && NameInTable(items, RenameTarget(name, cells).value)
    ensures UpdateIncomplete(items, name, cells).0 == NotFound <==>
              !(RenameTarget(name, cells).Some? && NameInTable(items, RenameTarget(name, cells).value)) &&
              !IncompleteNameUsed(items, name)
  {
  }

  /**
   * The rename check looks at every row: renaming to the name of a
   * completed row is refused, although inserting that name is accepted.
   */
  lemma RenameToCompletedNameRefused(items: seq<Task>, name: string, cells: seq<Cell>, k: nat, t: Task)
    requires k < |items| && items[k].complete && items[k].name != ""
    requires RenameTarget(name, cells) == Some(items[k].name)
    requires !IncompleteNameUsed(items, items[k].name)
    requires t.name == items[k].name
    ensures UpdateIncomplete(items, name, cells) == (NameTaken, items)
    ensures Insert(items, t) == (Inserted, items + [t])
  {
  }

  /**
   * A successful patch changes only the first incomplete row named
   * `name`, and in that row only the columns the patch mentions; every
   * other column, creation_date included, keeps its value.
   */
  lemma UpdateTouchesOnlyPatchedCells(items: seq<Task>, name: string, cells: seq<Cell>, col: Column)
    requires UpdateIncomplete(items, name, cells).0 == Updated
    ensures IncompleteNameUsed(items, name)
    ensures var r := UpdateIncomplete(items, name, cells).1;
            var i := FindIncomplete(items, name).value;
            |r| == |items| &&
            (forall k :: 0 <= k < |items| && k != i ==> r[k] == items[k]) &&
            CellAt(r[i], col) == match LastCellFor(cells, col)
                                 case Some(c) => c
                                 case None => CellAt(items[i], col)
  {
    ApplyCellsAt(items[FindIncomplete(items, name).value], cells, col);
  }

  /** A successful patch keeps names unique among incomplete rows. */
  lemma UpdatePreservesUnique(items: seq<Task>, name: string, cells: seq<Cell>)
    requires UniqueIncomplete(items)
    ensures UniqueIncomplete(UpdateIncomplete(items, name, cells).1)
  {
    var (outcome, r) := UpdateIncomplete(items, name, cells);
    if outcome == Updated {
      var i := FindIncomplete(items, name).value;
      ApplyCellsName(items[i], cells);
      var target := RenameTarget(name, cells);
      forall p, q | 0 <= p < q < |r| && !r[p].complete && !r[q].complete
        ensures r[p].name != r[q].name
      {
        if p == i || q == i {
          var other := if p == i then q else p;
          assert r[other] == items[other];
          if target.Some? {
            assert r[i].name == target.value;
            assert !NameInTable(items, target.value);
            assert items[other].name != target.value;
          } else {
            assert r[i].name == name;
            if other < i {
              assert !IsIncompleteNamed(items[other], name);
            } else {
              assert !items[other].complete && !items[i].complete;
            }
          }
        }
      }
    }
  }

  // ---------------------------------------------------------------- insert

  /** What insert_item did: added the row, or refused it and why. */
  datatype InsertOutcome = Inserted | EmptyName | NameInUse

  /** The row insert_item builds from the form: not started, not complete, stamped `now`. */
  function NewTask(name: string, description: string, length: Length, reviewable: bool,
                   priority: Priority, urgency: Urgency, enjoyability: Enjoyability,
                   now: Timestamp): (t: Task)
    ensures t.name == name && !t.inProgress && !t.complete && t.creationDate == now
  {
    Task(name, description, length, reviewable, false, priority, urgency, enjoyability,
         false, now, None, None)
  }

  /** insert_item's validation followed by add_item. */
  function Insert(items: seq<Task>, t: Task): (r: (InsertOutcome, seq<Task>))
  {
    if t.name == "" then (EmptyName, items)
    else if IncompleteNameUsed(items, t.name) then (NameInUse, items)
    else (Inserted, items + [t])
  }

  /**
   * An empty name or a name held by an incomplete row is refused with the
   * table unchanged; anything else appends exactly the new row.
   */
  lemma InsertOutcomes(items: seq<Task>, t: Task)
    ensures Insert(items, t).0 == Inserted <==> t.name != "" && !IncompleteNameUsed(items, t.name)
    ensures Insert(items, t).0 == Inserted ==> Insert(items, t).1 == items + [t]
    ensures Insert(items, t).0 != Inserted ==> Insert(items, t).1 == items
  {
  }

  /** Inserting a fresh incomplete row keeps names unique. */
  lemma InsertPreservesUnique(items: seq<Task>, t: Task)
    requires UniqueIncomplete(items)
    ensures UniqueIncomplete(Insert(items, t).1)
  {
    if Insert(items, t).0 == Inserted {
      UniqueAppend(items, t);
    }
  }

  // ---------------------------------------------------------------- commit

  /** The patch commit_item sends: `{"in_progress": True}`. */
  const CommitPatch: seq<Cell> := [InProgressCell(true)]

  /**
   * Committing never trips the rename check, and when the task exists it
   * sets in_progress on the first incomplete row with that name and changes
   * nothing else.
   */
  lemma CommitOnlyStartsTask(items: seq<Task>, name: string)
    ensures UpdateIncomplete(items, name, CommitPatch).0 != NameTaken
    ensures IncompleteNameUsed(items, name) ==>
              var i := FindIncomplete(items, name).value;
              UpdateIncomplete(items, name, CommitPatch) ==
                (Updated, items[i := items[i].(inProgress := true)])
  {
    if IncompleteNameUsed(items, name) {
      var i := FindIncomplete(items, name).value;
      assert CommitPatch[..0] == [];
      assert ApplyCells(items[i], CommitPatch) == SetCell(items[i], InProgressCell(true));
    }
  }

  /**
   * Under the uniqueness invariant, the row an incomplete task occupies is
   * the one a lookup by its name finds.
   */
  lemma FindIncompleteUnique(items: seq<Task>, k: nat)
    requires UniqueIncomplete(items)
    requires k < |items| && !items[k].complete
    ensures FindIncomplete(items, items[k].name) == Some(k)
  {
    var r := FindIncomplete(items, items[k].name);
    assert IsIncompleteNamed(items[k], items[k].name);
  }

  /** Under the uniqueness invariant, committing an incomplete row's name starts exactly that row. */
  lemma CommitRow(items: seq<Task>, k: nat)
    requires UniqueIncomplete(items)
    requires k < |items| && !items[k].complete
    ensures UpdateIncomplete(items, items[k].name, CommitPatch) ==
              (Updated, items[k := items[k].(inProgress := true)])
  {
    FindIncompleteUnique(items, k);
    assert IncompleteNameUsed(items, items[k].name) by {
      assert IsIncompleteNamed(items[k], items[k].name);
    }
    CommitOnlyStartsTask(items, items[k].name);
  }

  // ---------------------------------------------------------------- permutations

  /** A value counted twice in a sequence sits at two different positions. */
  lemma {:induction false} TwoOccurrences(s: seq<Task>, x: Task)
    requires multiset(s)[x] >= 2
    ensures exists p, q :: 0 <= p < q < |s| && s[p] == x && s[q] == x
  {
    var prefix := s[..|s| - 1];
    assert s == prefix + [s[|s| - 1]];
    if s[|s| - 1] == x {
      assert x in multiset(prefix);
      var p :| 0 <= p < |prefix| && prefix[p] == x;
      assert s[p] == x && s[|s| - 1] == x;
    } else {
      TwoOccurrences(prefix, x);
      var p, q :| 0 <= p < q < |prefix| && prefix[p] == x && prefix[q] == x;
      assert s[p] == x && s[q] == x;
    }
  }

  /** Uniqueness of incomplete names does not depend on the order of the rows. */
  lemma UniquePermutation(s: seq<Task>, r: seq<Task>)
    requires multiset(s) == multiset(r)
    requires UniqueIncomplete(s)
    ensures UniqueIncomplete(r)
  {
    forall i, j | 0 <= i < j < |r| && !r[i].complete && !r[j].complete
      ensures r[i].name != r[j].name
    {
      if r[i] == r[j] {
        assert r == r[..i] + [r[i]] + r[i + 1..j] + [r[j]] + r[j + 1..];
        assert multiset(r)[r[i]] >= 2;
        TwoOccurrences(s, r[i]);
      } else {
        assert r[i] in multiset(s) && r[j] in multiset(s);
        var p :| 0 <= p < |s| && s[p] == r[i];
        var q :| 0 <= q < |s| && s[q] == r[j];
        if p < q {
          assert s[p].name != s[q].name;
        } else {
          assert s[q].name != s[p].name;
        }
      }
    }
  }

  // ---------------------------------------------------------------- the store

  /** The in-memory task table. Writing it to disk after each change is not modelled. */
  class ItemHandler {
    var items: seq<Task>

    /**
     * load_items: the rows read from the file, or an empty table when there
     * is no file. Parsing the file is not modelled: `stored` is its result.
     */
    constructor Load(stored: Option<seq<Task>>)
      ensures items == if stored.Some? then stored.value else []
    {
      items := if stored.Some? then stored.value else [];
    }

    /** add_item: the row goes at the end; the other rows keep their order. */
    method AddItem(item: Task)
      modifies this
      ensures items == old(items) + [item]
    {
      items := items + [item];
    }

    /** delete_incomplete_item: drops every incomplete row with this name. */
    method DeleteIncompleteItem(name: string)
      modifies this
      ensures items == RemoveIncomplete(old(items), name)
    {
      var kept: seq<Task> := [];
      var i := 0;
      while i < |items|
        invariant 0 <= i <= |items|
        invariant kept == RemoveIncomplete(items[..i], name)
      {
        if !IsIncompleteNamed(items[i], name) {
          kept := kept + [items[i]];
        }
        assert items[..i + 1][..i] == items[..i];
        i := i + 1;
      }
      assert items[..i] == items;
      items := kept;
    }

    /**
     * update_incomplete_item: refuses a rename to any name in the table,
     * otherwise writes the patch cells one by one into the first incomplete
     * row named `name`.
     */
    method UpdateIncompleteItem(name: string, cells: seq<Cell>) returns (outcome: UpdateOutcome)
      modifies this
      ensures (outcome, items) == UpdateIncomplete(old(items), name, cells)
    {
      var target := RenameTarget(name, cells);
      if target.Some? && NameInTable(items, target.value) {
        return NameTaken;
      }
      var i := 0;
      while i < |items| && !IsIncompleteNamed(items[i], name)
        invariant 0 <= i <= |items|
        invariant forall j :: 0 <= j < i ==> !IsIncompleteNamed(items[j], name)
      {
        i := i + 1;
      }
      if i == |items| {
        return NotFound;
      }
      var k := 0;
      while k < |cells|
        invariant 0 <= k <= |cells|
        invariant items == old(items)[i := ApplyCells(old(items)[i], cells[..k])]
      {
        assert cells[..k + 1][..k] == cells[..k];
        items := items[i := SetCell(items[i], cells[k])];
        k := k + 1;
      }
      assert cells[..k] == cells;
      outcome := Updated;
    }
  }
}
