/**
 * One row of the task table (ItemHandler._columns) and its cells.
 * The table is a pandas DataFrame whose rows are patched column by
 * column, so besides the record itself the model names the columns
 * (Column), a typed value written into one column (Cell), and reads and
 * writes a row one cell at a time (CellAt, SetCell).
 */
module Tasks {
  import opened Wrappers
  import opened Categories

  /** Timestamps (creation_date, start_date, deadline) are opaque integers. */
  type Timestamp = int

  /** A row, with the columns in the order the table declares them. */
  datatype Task = Task(
    name: string,
    description: string,
    length: Length,
    reviewable: bool,
    inProgress: bool,
    priority: Priority,
    urgency: Urgency,
    enjoyability: Enjoyability,
    complete: bool,
    creationDate: Timestamp,
    startDate: Option<Timestamp>,
    deadline: Option<Timestamp>)

  datatype Column =
    | NameCol | DescriptionCol | LengthCol | ReviewableCol | InProgressCol
    | PriorityCol | UrgencyCol | EnjoyabilityCol | CompleteCol
    | CreationDateCol | StartDateCol | DeadlineCol

  /** A value destined for one column: one entry of a `col: val` patch. */
  datatype Cell =
    | NameCell(name: string)
    | DescriptionCell(description: string)
    | LengthCell(length: Length)
    | ReviewableCell(reviewable: bool)
    | InProgressCell(inProgress: bool)
    | PriorityCell(priority: Priority)
    | UrgencyCell(urgency: Urgency)
    | EnjoyabilityCell(enjoyability: Enjoyability)
    | CompleteCell(complete: bool)
    | CreationDateCell(creationDate: Timestamp)
    | StartDateCell(startDate: Option<Timestamp>)
    | DeadlineCell(deadline: Option<Timestamp>)
  {
    function Column(): (col: Column) {
      match this
      case NameCell(_) => NameCol
      case DescriptionCell(_) => DescriptionCol
      case LengthCell(_) => LengthCol
      case ReviewableCell(_) => ReviewableCol
      case InProgressCell(_) => InProgressCol
      case PriorityCell(_) => PriorityCol
      case UrgencyCell(_) => UrgencyCol
      case EnjoyabilityCell(_) => EnjoyabilityCol
      case CompleteCell(_) => CompleteCol
      case CreationDateCell(_) => CreationDateCol
      case StartDateCell(_) => StartDateCol
      case DeadlineCell(_) => DeadlineCol
    }
  }

  /** The cell of row `t` in column `col`. */
  function CellAt(t: Task, col: Column): (c: Cell)
    ensures c.Column() == col
  {
    match col
    case NameCol => NameCell(t.name)
    case DescriptionCol => DescriptionCell(t.description)
    case LengthCol => LengthCell(t.length)
    case ReviewableCol => ReviewableCell(t.reviewable)
    case InProgressCol => InProgressCell(t.inProgress)
    case PriorityCol => PriorityCell(t.priority)
    case UrgencyCol => UrgencyCell(t.urgency)
    case EnjoyabilityCol => EnjoyabilityCell(t.enjoyability)
    case CompleteCol => CompleteCell(t.complete)
    case CreationDateCol => CreationDateCell(t.creationDate)
    case StartDateCol => StartDateCell(t.startDate)
    case DeadlineCol => DeadlineCell(t.deadline)
  }

  /** A row is determined by its cells. */
  lemma RowExtensionality(a: Task, b: Task)
    requires forall col :: CellAt(a, col) == CellAt(b, col)
    ensures a == b
  {
    assert CellAt(a, NameCol) == CellAt(b, NameCol);
    assert CellAt(a, DescriptionCol) == CellAt(b, DescriptionCol);
    assert CellAt(a, LengthCol) == CellAt(b, LengthCol);
    assert CellAt(a, ReviewableCol) == CellAt(b, ReviewableCol);
    assert CellAt(a, InProgressCol) == CellAt(b, InProgressCol);
    assert CellAt(a, PriorityCol) == CellAt(b, PriorityCol);
    assert CellAt(a, UrgencyCol) == CellAt(b, UrgencyCol);
    assert CellAt(a, EnjoyabilityCol) == CellAt(b, EnjoyabilityCol);
    assert CellAt(a, CompleteCol) == CellAt(b, CompleteCol);
    assert CellAt(a, CreationDateCol) == CellAt(b, CreationDateCol);
    assert CellAt(a, StartDateCol) == CellAt(b, StartDateCol);
    assert CellAt(a, DeadlineCol) == CellAt(b, DeadlineCol);
  }

  /** Writing one cell of a row (one `iloc[row, col] = val` assignment). */
  function SetCell(t: Task, c: Cell): (r: Task)
    ensures CellAt(r, c.Column()) == c
    ensures forall col :: col != c.Column() ==> CellAt(r, col) == CellAt(t, col)
  {
    match c
    case NameCell(v) => t.(name := v)
    case DescriptionCell(v) => t.(description := v)
    case LengthCell(v) => t.(length := v)
    case ReviewableCell(v) => t.(reviewable := v)
    case InProgressCell(v) => t.(inProgress := v)
    case PriorityCell(v) => t.(priority := v)
    case UrgencyCell(v) => t.(urgency := v)
    case EnjoyabilityCell(v) => t.(enjoyability := v)
    case CompleteCell(v) => t.(complete := v)
    case CreationDateCell(v) => t.(creationDate := v)
    case StartDateCell(v) => t.(startDate := v)
    case DeadlineCell(v) => t.(deadline := v)
  }

  /**
   * The last cell of a patch that targets column `col`: the value a
   * dictionary keeps for that key, and the one that is written last.
   */
  function LastCellFor(cells: seq<Cell>, col: Column): (r: Option<Cell>)
    ensures r.None? <==> forall k :: 0 <= k < |cells| ==> cells[k].Column() != col
    ensures r.Some? ==> r.value in cells && r.value.Column() == col
    ensures r.Some? ==> exists k :: 0 <= k < |cells| && cells[k] == r.value &&
                          forall m :: k < m < |cells| ==> cells[m].Column() != col
  {
    if cells == [] then None
    else if cells[|cells| - 1].Column() == col then Some(cells[|cells| - 1])
    else LastCellFor(cells[..|cells| - 1], col)
  }

  /** Writing the cells of a patch into a row, in order. */
  function ApplyCells(t: Task, cells: seq<Cell>): (r: Task)
  {
    if cells == [] then t
    else SetCell(ApplyCells(t, cells[..|cells| - 1]), cells[|cells| - 1])
  }

  /**
   * After a patch, each column holds the patch's last cell for it, and a
   * column the patch does not mention keeps its old value.
   */
  lemma {:induction false} ApplyCellsAt(t: Task, cells: seq<Cell>, col: Column)
    ensures CellAt(ApplyCells(t, cells), col) ==
              match LastCellFor(cells, col)
              case Some(c) => c
              case None => CellAt(t, col)
  {
    if cells != [] {
      ApplyCellsAt(t, cells[..|cells| - 1], col);
    }
  }

  /** The name a patch leaves in the row: its last name cell, or the old name. */
  lemma ApplyCellsName(t: Task, cells: seq<Cell>)
    ensures ApplyCells(t, cells).name ==
              match LastCellFor(cells, NameCol)
              case Some(c) => c.name
              case None => t.name
  {
    ApplyCellsAt(t, cells, NameCol);
  }

  /** A patch that does not mention the completion flag leaves it alone. */
  lemma ApplyCellsComplete(t: Task, cells: seq<Cell>)
    requires forall k :: 0 <= k < |cells| ==> cells[k].Column() != CompleteCol
    ensures ApplyCells(t, cells).complete == t.complete
  {
    ApplyCellsAt(t, cells, CompleteCol);
  }
}
