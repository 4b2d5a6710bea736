/**
 * The order of the View tab (disp_items): the sort state it keeps between
 * clicks, the key `(sort_col, creation_date)` the table is sorted by, and
 * the sort itself.
 */
module Ordering {
  import opened Wrappers
  import opened Categories
  import opened Tasks

  /** The columns the View tab offers as sort keys (its header buttons). */
  datatype SortColumn =
    | ByName | ByLength | ByPriority | ByUrgency | ByEnjoyability | ByCreationDate | ByInProgress

  /**
   * The sort toggle: clicking the column already sorted on, without
   * keep_sort, flips the direction; every other call sorts ascending,
   * including a re-display that asks to keep the sort. `prev` is None
   * before the first sort (the empty column name).
   */
  function NextSortAsc(prev: Option<SortColumn>, prevAsc: bool, col: SortColumn, keepSort: bool): (asc: bool)
  {
    if prev == Some(col) && !keepSort then !prevAsc else true
  }

  /** Clicking the same header twice restores the direction. */
  lemma ToggleTwice(col: SortColumn, asc: bool)
    ensures NextSortAsc(Some(col), NextSortAsc(Some(col), asc, col, false), col, false) == asc
  {
  }

  /** A new column, and any re-display with keep_sort, sort ascending. */
  lemma ToggleResets(prev: Option<SortColumn>, prevAsc: bool, col: SortColumn, keepSort: bool)
    ensures prev != Some(col) ==> NextSortAsc(prev, prevAsc, col, keepSort)
    ensures keepSort ==> NextSortAsc(prev, prevAsc, col, keepSort)
    ensures !NextSortAsc(prev, prevAsc, col, keepSort) ==> prev == Some(col) && !keepSort && prevAsc
  {
  }

  // ---------------------------------------------------------------- keys

  /** Python's order on strings: code point by code point, a proper prefix first. */
  predicate StrLess(a: string, b: string) {
    if a == [] then b != []
    else if b == [] then false
    else a[0] < b[0] || (a[0] == b[0] && StrLess(a[1..], b[1..]))
  }

  lemma {:induction false} StrLessTrichotomy(a: string, b: string)
    ensures a == b || StrLess(a, b) || StrLess(b, a)
    ensures !(StrLess(a, b) && StrLess(b, a))
  {
    if a != [] && b != [] && a[0] == b[0] {
      StrLessTrichotomy(a[1..], b[1..]);
      if a[1..] == b[1..] {
        assert a == [a[0]] + a[1..] && b == [b[0]] + b[1..];
      }
    }
  }

  lemma {:induction false} StrLessTransitive(a: string, b: string, c: string)
    requires StrLess(a, b) && StrLess(b, c)
    ensures StrLess(a, c)
  {
    if a != [] && a[0] == b[0] && b[0] == c[0] {
      StrLessTransitive(a[1..], b[1..], c[1..]);
    }
  }

  /**
   * The primary key of every column but the name as a number: the rank
   * for the four category columns (declaration order, not label text),
   * the timestamp, and False before True for in_progress.
   */
  function NumericKey(col: SortColumn, t: Task): (key: int)
    requires col != ByName
  {
    match col
    case ByLength => t.length.Rank()
    case ByPriority => t.priority.Rank()
    case ByUrgency => t.urgency.Rank()
    case ByEnjoyability => t.enjoyability.Rank()
    case ByCreationDate => t.creationDate
    case ByInProgress => if t.inProgress then 1 else 0
  }

  predicate PrimaryLess(col: SortColumn, a: Task, b: Task) {
    if col == ByName then StrLess(a.name, b.name) else NumericKey(col, a) < NumericKey(col, b)
  }

  predicate PrimarySame(col: SortColumn, a: Task, b: Task) {
    if col == ByName then a.name == b.name else NumericKey(col, a) == NumericKey(col, b)
  }

  /** `a` may stand before `b` when sorting ascending by `[col, "creation_date"]`. */
  predicate KeyLeq(col: SortColumn, a: Task, b: Task) {
    PrimaryLess(col, a, b) || (PrimarySame(col, a, b) && a.creationDate <= b.creationDate)
  }

  /** `a` may stand before `b` in the requested direction (both keys reversed when descending). */
  predicate InOrder(col: SortColumn, asc: bool, a: Task, b: Task) {
    if asc then KeyLeq(col, a, b) else KeyLeq(col, b, a)
  }

  /** Any two rows are comparable. */
  lemma InOrderTotal(col: SortColumn, asc: bool, a: Task, b: Task)
    ensures InOrder(col, asc, a, b) || InOrder(col, asc, b, a)
  {
    if col == ByName {
      StrLessTrichotomy(a.name, b.name);
    }
  }

  lemma KeyLeqTransitive(col: SortColumn, a: Task, b: Task, c: Task)
    requires KeyLeq(col, a, b) && KeyLeq(col, b, c)
    ensures KeyLeq(col, a, c)
  {
    if col == ByName {
      if StrLess(a.name, b.name) && StrLess(b.name, c.name) {
        StrLessTransitive(a.name, b.name, c.name);
      }
    }
  }

  lemma InOrderTransitive(col: SortColumn, asc: bool, a: Task, b: Task, c: Task)
    requires InOrder(col, asc, a, b) && InOrder(col, asc, b, c)
    ensures InOrder(col, asc, a, c)
  {
    if asc {
      KeyLeqTransitive(col, a, b, c);
    } else {
      KeyLeqTransitive(col, c, b, a);
    }
  }

  /** Rows in both orders have equal keys: same primary key and same creation date. */
  lemma InOrderAntisymmetric(col: SortColumn, asc: bool, a: Task, b: Task)
    requires InOrder(col, asc, a, b) && InOrder(col, asc, b, a)
    ensures PrimarySame(col, a, b) && a.creationDate == b.creationDate
  {
    if col == ByName {
      StrLessTrichotomy(a.name, b.name);
    }
  }

  /**
   * A tie on a category column is a tie on the category itself: rows the
   * sort can only separate by creation date hold the same label.
   */
  lemma PrimarySameCategory(col: SortColumn, a: Task, b: Task)
    requires PrimarySame(col, a, b)
    ensures col == ByLength ==> a.length == b.length
    ensures col == ByPriority ==> a.priority == b.priority
    ensures col == ByUrgency ==> a.urgency == b.urgency
    ensures col == ByEnjoyability ==> a.enjoyability == b.enjoyability
  {
    match col
    case ByLength => LengthRankInjective(a.length, b.length);
    case ByPriority => PriorityRankInjective(a.priority, b.priority);
    case ByUrgency => UrgencyRankInjective(a.urgency, b.urgency);
    case ByEnjoyability => EnjoyabilityRankInjective(a.enjoyability, b.enjoyability);
    case _ =>
  }

  /** The table is ordered by `(col, creation_date)` in the requested direction. */
  predicate Sorted(s: seq<Task>, col: SortColumn, asc: bool) {
    forall i, j :: 0 <= i < j < |s| ==> InOrder(col, asc, s[i], s[j])
  }

  /** No two rows were created at the same instant. */
  predicate DistinctDates(s: seq<Task>) {
    forall i, j :: 0 <= i < j < |s| ==> s[i].creationDate != s[j].creationDate
  }

  /** Two sorted permutations of a table with distinct dates start with the same row. */
  lemma SortedSameFirst(s: seq<Task>, r: seq<Task>, col: SortColumn, asc: bool)
    requires s != [] && multiset(s) == multiset(r)
    requires Sorted(s, col, asc) && Sorted(r, col, asc)
    requires DistinctDates(s)
    ensures r != [] && s[0] == r[0]
  {
    assert s[0] in multiset(r);
    assert r[0] in multiset(s);
    var p :| 0 <= p < |s| && s[p] == r[0];
    var q :| 0 <= q < |r| && r[q] == s[0];
    if p != 0 {
      assert s[0].creationDate != s[p].creationDate;
      assert InOrder(col, asc, r[0], r[q]);
      InOrderAntisymmetric(col, asc, s[0], s[p]);
      assert false;
    }
  }

  /**
   * With distinct creation dates the sorted order is unique: two sorted
   * permutations of one table are the same sequence. So sorting an
   * already sorted table again, as a second click on the same header does
   * after the first one flipped the direction, gives back the same order.
   */
  lemma {:induction false} SortedUnique(s: seq<Task>, r: seq<Task>, col: SortColumn, asc: bool)
    requires multiset(s) == multiset(r)
    requires Sorted(s, col, asc) && Sorted(r, col, asc)
    requires DistinctDates(s)
    ensures s == r
  {
    if s == [] {
      assert |r| == |multiset(r)| == 0;
    } else {
      SortedSameFirst(s, r, col, asc);
      assert s == [s[0]] + s[1..] && r == [r[0]] + r[1..];
      assert multiset(s) == multiset{s[0]} + multiset(s[1..]);
      assert multiset(r) == multiset{r[0]} + multiset(r[1..]);
      assert multiset(s[1..]) == multiset(s) - multiset{s[0]} == multiset(r[1..]);
      SortedUnique(s[1..], r[1..], col, asc);
    }
  }

  /**
   * Ascending means best first, by rank and not by label text: rows with
   * priorities Low, Very High and Medium sort as Very High, Medium, Low.
   */
  lemma PrioritySortExample(low: Task, veryHigh: Task, medium: Task, r: seq<Task>)
    requires low.priority == Low && veryHigh.priority == VeryHigh && medium.priority == Medium
    requires multiset(r) == multiset([low, veryHigh, medium])
    requires Sorted(r, ByPriority, true)
    ensures r == [veryHigh, medium, low]
  {
    assert |r| == 3 by {
      assert |multiset(r)| == |multiset([low, veryHigh, medium])| == 3;
    }
    forall i | 0 <= i < 3
      ensures r[i] == low || r[i] == veryHigh || r[i] == medium
    {
      assert r[i] in multiset(r);
    }
    assert veryHigh in multiset(r) && medium in multiset(r) && low in multiset(r);
    // Sorted ascending by priority: the ranks of r[0], r[1], r[2] do not decrease.
    assert InOrder(ByPriority, true, r[0], r[1]) && InOrder(ByPriority, true, r[1], r[2]);
  }

  // ---------------------------------------------------------------- the sort

  /**
   * `sort_values(by=[col, "creation_date"], ascending=asc)`: the result
   * holds the same rows, ordered by the key in that direction.
   */
  method SortedBy(s: seq<Task>, col: SortColumn, asc: bool) returns (r: seq<Task>)
    ensures multiset(r) == multiset(s)
    ensures Sorted(r, col, asc)
  {
    r := s;
    var i := 0;
    while i < |r|
      invariant 0 <= i <= |r| == |s|
      invariant multiset(r) == multiset(s)
      invariant Sorted(r[..i], col, asc)
    {
      // Move r[i] down into the sorted prefix r[..i].
      var j := i;
      while j > 0 && !InOrder(col, asc, r[j - 1], r[j])
        invariant 0 <= j <= i < |r| == |s|
        invariant multiset(r) == multiset(s)
        invariant forall p, q :: 0 <= p < q <= i && p != j && q != j ==> InOrder(col, asc, r[p], r[q])
        invariant forall q :: j < q <= i ==> InOrder(col, asc, r[j], r[q])
      {
        InOrderTotal(col, asc, r[j - 1], r[j]);
        r := r[j - 1 := r[j]][j := r[j - 1]];
        j := j - 1;
      }
      forall p | 0 <= p < j
        ensures InOrder(col, asc, r[p], r[j])
      {
        if p < j - 1 {
          InOrderTransitive(col, asc, r[p], r[j - 1], r[j]);
        }
      }
      i := i + 1;
    }
    assert r[..i] == r;
  }

  // ---------------------------------------------------------------- what is shown

  /** The rows the View tab draws: the incomplete ones, in table order. */
  function Active(items: seq<Task>): (r: seq<Task>)
  {
    if items == [] then []
    else
      var last := items[|items| - 1];
      Active(items[..|items| - 1]) + (if last.complete then [] else [last])
  }

  /** The drawn rows are exactly the incomplete rows of the table. */
  lemma {:induction false} ActiveMembers(items: seq<Task>, t: Task)
    ensures t in Active(items) <==> t in items && !t.complete
  {
    if items != [] {
      ActiveMembers(items[..|items| - 1], t);
      assert items == items[..|items| - 1] + [items[|items| - 1]];
    }
  }

  /** Drawing only the incomplete rows of a sorted table keeps them sorted. */
  lemma {:induction false} ActiveSorted(items: seq<Task>, col: SortColumn, asc: bool)
    requires Sorted(items, col, asc)
    ensures Sorted(Active(items), col, asc)
  {
    if items != [] {
      var prefix := items[..|items| - 1];
      var last := items[|items| - 1];
      ActiveSorted(prefix, col, asc);
      var shown := Active(prefix);
      if !last.complete {
        forall p | 0 <= p < |shown|
          ensures InOrder(col, asc, shown[p], last)
        {
          ActiveMembers(prefix, shown[p]);
          var k :| 0 <= k < |prefix| && prefix[k] == shown[p];
          assert items[k] == shown[p];
        }
      }
    }
  }
}
