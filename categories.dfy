/**
 * The four ordinal categories of a task (ItemHandler._cboptions).
 * Each category list is ordered by declaration; pandas' ordered
 * Categorical compares two values by their position in that list, so
 * every category here carries its declaration index as its Rank, and
 * every comparison in the model goes through Rank, never through the
 * label text. The per-label display colour is not modelled.
 */
module Categories {
  import opened Wrappers

  datatype Length =
    | UnderAnHour | HourToDay | OneDay | DayToWeek | OneWeek
    | WeekToMonth | SeveralMonths | UpToAYear | SeveralYears
  {
    function Rank(): (r: nat)
      ensures r < |LengthLabels|
    {
      match this
      case UnderAnHour => 0
      case HourToDay => 1
      case OneDay => 2
      case DayToWeek => 3
      case OneWeek => 4
      case WeekToMonth => 5
      case SeveralMonths => 6
      case UpToAYear => 7
      case SeveralYears => 8
    }

    function Label(): (s: string) {
      LengthLabels[Rank()]
    }
  }

  datatype Priority = VeryHigh | High | Medium | Low | VeryLow
  {
    function Rank(): (r: nat)
      ensures r < |PriorityLabels|
    {
      match this
      case VeryHigh => 0
      case High => 1
      case Medium => 2
      case Low => 3
      case VeryLow => 4
    }

    function Label(): (s: string) {
      PriorityLabels[Rank()]
    }
  }

  datatype Urgency = Asap | Soon | WhenReady | InTheFuture | Whenever
  {
    function Rank(): (r: nat)
      ensures r < |UrgencyLabels|
    {
      match this
      case Asap => 0
      case Soon => 1
      case WhenReady => 2
      case InTheFuture => 3
      case Whenever => 4
    }

    function Label(): (s: string) {
      UrgencyLabels[Rank()]
    }
  }

  datatype Enjoyability = Fun | Okay | Boring
  {
    function Rank(): (r: nat)
      ensures r < |EnjoyabilityLabels|
    {
      match this
      case Fun => 0
      case Okay => 1
      case Boring => 2
    }

    function Label(): (s: string) {
      EnjoyabilityLabels[Rank()]
    }
  }

  /** The category lists, in declaration order. */
  const LengthLabels: seq<string> :=
    ["< 1 hr", "1 hr - 1 day", "1 day", "1 day - 1 wk", "1 wk",
     "1 wk - 1 mth", "Several months", "<= 1 year", "Several years"]
  const PriorityLabels: seq<string> := ["Very High", "High", "Medium", "Low", "Very Low"]
  const UrgencyLabels: seq<string> := ["ASAP", "Soon", "When ready", "In the future", "Whenever"]
  const EnjoyabilityLabels: seq<string> := ["Fun", "Okay", "Boring"]

  /** The category at a given position of its list: the inverse of Rank. */
  function LengthAt(r: nat): (l: Length)
    requires r < |LengthLabels|
    ensures l.Rank() == r
  {
    [UnderAnHour, HourToDay, OneDay, DayToWeek, OneWeek,
     WeekToMonth, SeveralMonths, UpToAYear, SeveralYears][r]
  }

  function PriorityAt(r: nat): (p: Priority)
    requires r < |PriorityLabels|
    ensures p.Rank() == r
  {
    [VeryHigh, High, Medium, Low, VeryLow][r]
  }

  function UrgencyAt(r: nat): (u: Urgency)
    requires r < |UrgencyLabels|
    ensures u.Rank() == r
  {
    [Asap, Soon, WhenReady, InTheFuture, Whenever][r]
  }

  function EnjoyabilityAt(r: nat): (e: Enjoyability)
    requires r < |EnjoyabilityLabels|
    ensures e.Rank() == r
  {
    [Fun, Okay, Boring][r]
  }

  /** No label occurs twice in a category list. */
  predicate Distinct(labels: seq<string>) {
    forall i, j :: 0 <= i < j < |labels| ==> labels[i] != labels[j]
  }

  /** Position of the first occurrence of `s` in `labels`, if any. */
  function IndexOf(labels: seq<string>, s: string): (r: Option<nat>)
    ensures r.None? <==> s !in labels
    ensures r.Some? ==> r.value < |labels| && labels[r.value] == s
    ensures r.Some? ==> forall j :: 0 <= j < r.value ==> labels[j] != s
  {
    if labels == [] then None
    else if labels[0] == s then Some(0)
    else match IndexOf(labels[1..], s)
      case None => None
      case Some(k) => Some(k + 1)
  }

  /** In a list without repetitions, looking up the k-th label gives back k. */
  lemma IndexOfDistinct(labels: seq<string>, k: nat)
    requires Distinct(labels) && k < |labels|
    ensures IndexOf(labels, labels[k]) == Some(k)
  {
  }

  lemma LabelsDistinct()
    ensures Distinct(LengthLabels) && Distinct(PriorityLabels)
    ensures Distinct(UrgencyLabels) && Distinct(EnjoyabilityLabels)
  {
  }

  /**
   * Conversion of a stored label to its category (the ordered Categorical
   * built by set_item_dtypes); a label outside the list has no category.
   */
  function ParseLength(s: string): (r: Option<Length>)
    ensures r.None? <==> s !in LengthLabels
    ensures r.Some? ==> r.value.Label() == s
  {
    match IndexOf(LengthLabels, s)
    case None => None
    case Some(i) => Some(LengthAt(i))
  }

  function ParsePriority(s: string): (r: Option<Priority>)
    ensures r.None? <==> s !in PriorityLabels
    ensures r.Some? ==> r.value.Label() == s
  {
    match IndexOf(PriorityLabels, s)
    case None => None
    case Some(i) => Some(PriorityAt(i))
  }

  function ParseUrgency(s: string): (r: Option<Urgency>)
    ensures r.None? <==> s !in UrgencyLabels
    ensures r.Some? ==> r.value.Label() == s
  {
    match IndexOf(UrgencyLabels, s)
    case None => None
    case Some(i) => Some(UrgencyAt(i))
  }

  function ParseEnjoyability(s: string): (r: Option<Enjoyability>)
    ensures r.None? <==> s !in EnjoyabilityLabels
    ensures r.Some? ==> r.value.Label() == s
  {
    match IndexOf(EnjoyabilityLabels, s)
    case None => None
    case Some(i) => Some(EnjoyabilityAt(i))
  }

  /** Every category survives the trip through its label. */
  lemma LengthLabelRoundTrip(l: Length)
    ensures ParseLength(l.Label()) == Some(l)
  {
    LabelsDistinct();
    IndexOfDistinct(LengthLabels, l.Rank());
    match l
    case UnderAnHour =>
    case HourToDay =>
    case OneDay =>
    case DayToWeek =>
    case OneWeek =>
    case WeekToMonth =>
    case SeveralMonths =>
    case UpToAYear =>
    case SeveralYears =>
  }

  lemma PriorityLabelRoundTrip(p: Priority)
    ensures ParsePriority(p.Label()) == Some(p)
  {
    LabelsDistinct();
    IndexOfDistinct(PriorityLabels, p.Rank());
    match p
    case VeryHigh =>
    case High =>
    case Medium =>
    case Low =>
    case VeryLow =>
  }

  lemma UrgencyLabelRoundTrip(u: Urgency)
    ensures ParseUrgency(u.Label()) == Some(u)
  {
    LabelsDistinct();
    IndexOfDistinct(UrgencyLabels, u.Rank());
    match u
    case Asap =>
    case Soon =>
    case WhenReady =>
    case InTheFuture =>
    case Whenever =>
  }

  lemma EnjoyabilityLabelRoundTrip(e: Enjoyability)
    ensures ParseEnjoyability(e.Label()) == Some(e)
  {
    LabelsDistinct();
    IndexOfDistinct(EnjoyabilityLabels, e.Rank());
    match e
    case Fun =>
    case Okay =>
    case Boring =>
  }

  /** Rank identifies the length: two lengths with the same rank are equal. */
  lemma LengthRankInjective(a: Length, b: Length)
    requires a.Rank() == b.Rank()
    ensures a == b
  {
    assert LengthAt(a.Rank()) == a && LengthAt(b.Rank()) == b;
  }

  /** Rank identifies the priority. */
  lemma PriorityRankInjective(a: Priority, b: Priority)
    requires a.Rank() == b.Rank()
    ensures a == b
  {
    assert PriorityAt(a.Rank()) == a && PriorityAt(b.Rank()) == b;
  }

  /** Rank identifies the urgency. */
  lemma UrgencyRankInjective(a: Urgency, b: Urgency)
    requires a.Rank() == b.Rank()
    ensures a == b
  {
    assert UrgencyAt(a.Rank()) == a && UrgencyAt(b.Rank()) == b;
  }

  /** Rank identifies the enjoyability. */
  lemma EnjoyabilityRankInjective(a: Enjoyability, b: Enjoyability)
    requires a.Rank() == b.Rank()
    ensures a == b
  {
    assert EnjoyabilityAt(a.Rank()) == a && EnjoyabilityAt(b.Rank()) == b;
  }
}
