/**
 * The Choose tab (choose_item): the rows that pass the threshold filter,
 * and the pick of one of them by a random position. The random draw is a
 * parameter of the model.
 */
module Choose {
  import opened Wrappers
  import opened Categories
  import opened Tasks
  import opened Store

  /**
   * The five selections of the Choose tab. Every bound is compared by
   * rank: the length must lie between the two length bounds, and
   * priority, urgency and enjoyability must each rank at or before their
   * bound (rank 0 is the first label of the list: "Very High", "ASAP",
   * "Fun").
   */
  datatype Thresholds = Thresholds(
    lengthMin: Length,
    lengthMax: Length,
    priorityMin: Priority,
    urgencyMin: Urgency,
    enjoyabilityMin: Enjoyability)

  /** The boolean mask of choose_item, for one row. */
  predicate IsCandidate(t: Task, f: Thresholds) {
    && !t.complete
    && !t.inProgress
    && f.lengthMin.Rank() <= t.length.Rank() <= f.lengthMax.Rank()
    && t.priority.Rank() <= f.priorityMin.Rank()
    && t.urgency.Rank() <= f.urgencyMin.Rank()
    && t.enjoyability.Rank() <= f.enjoyabilityMin.Rank()
  }

  /** The rows the mask keeps, in table order. */
  function Candidates(items: seq<Task>, f: Thresholds): (r: seq<Task>)
  {
    if items == [] then []
    else
      var last := items[|items| - 1];
      Candidates(items[..|items| - 1], f) + (if IsCandidate(last, f) then [last] else [])
  }

  /** The candidates are exactly the rows of the table that pass the mask. */
  lemma {:induction false} CandidatesMembers(items: seq<Task>, f: Thresholds, t: Task)
    ensures t in Candidates(items, f) <==> t in items && IsCandidate(t, f)
  {
    if items != [] {
      CandidatesMembers(items[..|items| - 1], f, t);
      assert items == items[..|items| - 1] + [items[|items| - 1]];
    }
  }

  /** Filtering acts row by row, so it keeps the table's order. */
  lemma {:induction false} CandidatesAppend(a: seq<Task>, b: seq<Task>, f: Thresholds)
    ensures Candidates(a + b, f) == Candidates(a, f) + Candidates(b, f)
  {
    if b == [] {
      assert a + b == a;
    } else {
      assert (a + b)[..|a + b| - 1] == a + b[..|b| - 1];
      CandidatesAppend(a, b[..|b| - 1], f);
    }
  }

  /**
   * choose_item: nothing when no row passes the mask, otherwise the
   * candidate at the drawn position (`randint(0, n - 1)`).
   */
  function ChooseItem(items: seq<Task>, f: Thresholds, draw: nat): (r: Option<Task>)
    requires Candidates(items, f) != [] ==> draw < |Candidates(items, f)|
    ensures r.None? <==> forall t :: t in items ==> !IsCandidate(t, f)
    ensures r.Some? ==> r.value in items && IsCandidate(r.value, f)
  {
    var cands := Candidates(items, f);
    if cands == [] then
      assert forall t :: t in items ==> !IsCandidate(t, f) by {
        forall t | t in items ensures !IsCandidate(t, f) {
          CandidatesMembers(items, f, t);
        }
      }
      None
    else
      CandidatesMembers(items, f, cands[draw]);
      Some(cands[draw])
  }

  /** Every candidate is picked by some draw. */
  lemma ChooseReachesEveryCandidate(items: seq<Task>, f: Thresholds, t: Task)
    requires t in items && IsCandidate(t, f)
    ensures exists draw: nat :: draw < |Candidates(items, f)| && ChooseItem(items, f, draw) == Some(t)
  {
    CandidatesMembers(items, f, t);
    var draw :| 0 <= draw < |Candidates(items, f)| && Candidates(items, f)[draw] == t;
    assert ChooseItem(items, f, draw) == Some(t);
  }

  /** With a single candidate, every draw returns it. */
  lemma ChooseSingleCandidate(items: seq<Task>, f: Thresholds, k: nat, draw: nat)
    requires k < |items| && IsCandidate(items[k], f)
    requires forall j :: 0 <= j < |items| && j != k ==> !IsCandidate(items[j], f)
    requires Candidates(items, f) != [] ==> draw < |Candidates(items, f)|
    ensures ChooseItem(items, f, draw) == Some(items[k])
  {
    assert items == items[..k] + [items[k]] + items[k + 1..];
    CandidatesAppend(items[..k] + [items[k]], items[k + 1..], f);
    CandidatesAppend(items[..k], [items[k]], f);
    assert Candidates([items[k]], f) == [items[k]] by {
      assert [items[k]][..0] == [];
    }
    NoCandidates(items[..k], f);
    NoCandidates(items[k + 1..], f);
  }

  lemma {:induction false} NoCandidates(items: seq<Task>, f: Thresholds)
    requires forall j :: 0 <= j < |items| ==> !IsCandidate(items[j], f)
    ensures Candidates(items, f) == []
  {
    if items != [] {
      NoCandidates(items[..|items| - 1], f);
    }
  }

  /** The candidates of a table split around one of its rows. */
  lemma CandidatesAround(items: seq<Task>, f: Thresholds, k: nat)
    requires k < |items|
    ensures Candidates(items, f) ==
              Candidates(items[..k], f) +
              (if IsCandidate(items[k], f) then [items[k]] else []) +
              Candidates(items[k + 1..], f)
  {
    assert items == items[..k] + [items[k]] + items[k + 1..];
    CandidatesAppend(items[..k] + [items[k]], items[k + 1..], f);
    CandidatesAppend(items[..k], [items[k]], f);
    assert [items[k]][..0] == [];
  }

  /**
   * Committing the chosen task succeeds on the row that holds it, marks it
   * in progress and changes nothing else; the task is then no longer a
   * candidate, and the other candidates stay, in order.
   */
  lemma CommitChosen(items: seq<Task>, f: Thresholds, draw: nat, k: nat)
    requires UniqueIncomplete(items)
    requires Candidates(items, f) != [] ==> draw < |Candidates(items, f)|
    requires k < |items| && ChooseItem(items, f, draw) == Some(items[k])
    ensures UpdateIncomplete(items, items[k].name, CommitPatch) ==
              (Updated, items[k := items[k].(inProgress := true)])
    ensures Candidates(items, f) ==
              Candidates(items[..k], f) + [items[k]] + Candidates(items[k + 1..], f)
    ensures Candidates(items[k := items[k].(inProgress := true)], f) ==
              Candidates(items[..k], f) + Candidates(items[k + 1..], f)
  {
    assert IsCandidate(items[k], f);
    CommitRow(items, k);
    StartedLeavesCandidates(items, f, k);
  }

  /** Starting a candidate row removes it, and only it, from the candidates. */
  lemma StartedLeavesCandidates(items: seq<Task>, f: Thresholds, k: nat)
    requires k < |items| && IsCandidate(items[k], f)
    ensures Candidates(items, f) ==
              Candidates(items[..k], f) + [items[k]] + Candidates(items[k + 1..], f)
    ensures Candidates(items[k := items[k].(inProgress := true)], f) ==
              Candidates(items[..k], f) + Candidates(items[k + 1..], f)
  {
    var r := items[k := items[k].(inProgress := true)];
    assert !IsCandidate(r[k], f);
    CandidatesAround(items, f, k);
    CandidatesAround(r, f, k);
    assert r[..k] == items[..k] && r[k + 1..] == items[k + 1..];
  }
}
