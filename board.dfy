/**
  The board view of the client: the tasks of one column in position order, and the
  drag-and-drop state that turns a drop onto another column into a move request.
 */
module Board {
  import opened Schema

  /** `tasks.filter(t => t.status === s)`: the tasks of column `s`, in list order. */
  function TasksWithStatus(tasks: seq<Task>, s: Status): (r: seq<Task>)
    ensures |r| <= |tasks|
    ensures forall t | t in r :: t.status == s
  {
    if tasks == [] then []
    else (if tasks[0].status == s then [tasks[0]] else []) + TasksWithStatus(tasks[1..], s)
  }

  /** The filter keeps every task of column `s` as often as it is listed, and no other task. */
  lemma {:induction false} FilterCounts(tasks: seq<Task>, s: Status)
    ensures forall t :: multiset(TasksWithStatus(tasks, s))[t] == if t.status == s then multiset(tasks)[t] else 0
  {
    if tasks != [] {
      FilterCounts(tasks[1..], s);
      assert tasks == [tasks[0]] + tasks[1..];
    }
  }

  /** Filtering keeps list order: it distributes over concatenation. */
  lemma {:induction false} FilterAppend(a: seq<Task>, b: seq<Task>, s: Status)
    ensures TasksWithStatus(a + b, s) == TasksWithStatus(a, s) + TasksWithStatus(b, s)
  {
    if a != [] {
      var head := if a[0].status == s then [a[0]] else [];
      assert (a + b)[0] == a[0] && (a + b)[1..] == a[1..] + b;
      assert TasksWithStatus(a + b, s) == head + TasksWithStatus(a[1..] + b, s);
      assert TasksWithStatus(a, s) == head + TasksWithStatus(a[1..], s);
      FilterAppend(a[1..], b, s);
    } else {
      assert a + b == b;
    }
  }

  /** Ascending by position, the order `sort((a, b) => a.position - b.position)` produces. */
  predicate ByPosition(r: seq<Task>)
  {
    forall i, j | 0 <= i < j < |r| :: r[i].position <= r[j].position
  }

  /** In a list sorted by position the first task has the least position. */
  lemma HeadIsLeast(r: seq<Task>)
    requires ByPosition(r) && r != []
    ensures forall x | x in r :: r[0].position <= x.position
  {
  }

  /** A task no later than every task of a sorted list may go in front of it. */
  lemma ConsByPosition(x: Task, r: seq<Task>)
    requires ByPosition(r) && forall y | y in r :: x.position <= y.position
    ensures ByPosition([x] + r)
  {
  }

  /** Places `t` after every task whose position is not greater than its own. */
  function InsertByPosition(r: seq<Task>, t: Task): (r': seq<Task>)
    requires ByPosition(r)
    ensures ByPosition(r')
    ensures forall x | x in r' :: x in r || x == t
    ensures multiset(r') == multiset(r) + multiset{t}
  {
    if r == [] then [t]
    else if t.position < r[0].position then
      HeadIsLeast(r);
      ConsByPosition(t, r);
      [t] + r
    else
      var rest := InsertByPosition(r[1..], t);
      HeadIsLeast(r);
      assert forall x | x in r[1..] :: x in r;
      ConsByPosition(r[0], rest);
      assert r == [r[0]] + r[1..];
      [r[0]] + rest
  }

  /** The tasks in ascending position order: a sorted permutation of the input. */
  function SortByPosition(tasks: seq<Task>): (r: seq<Task>)
    ensures ByPosition(r)
    ensures multiset(r) == multiset(tasks)
  {
    if tasks == [] then []
    else
      var n := |tasks|;
      assert tasks == tasks[..n - 1] + [tasks[n - 1]];
      InsertByPosition(SortByPosition(tasks[..n - 1]), tasks[n - 1])
  }

  /** `getTasksForColumn`: exactly the tasks of column `s`, each as often as listed, by position. */
  function GetTasksForColumn(tasks: seq<Task>, s: Status): (r: seq<Task>)
    ensures ByPosition(r)
    ensures forall t :: multiset(r)[t] == if t.status == s then multiset(tasks)[t] else 0
    ensures |r| == |TasksWithStatus(tasks, s)|
  {
    var column := TasksWithStatus(tasks, s);
    FilterCounts(tasks, s);
    var r := SortByPosition(column);
    assert |r| == |multiset(r)| == |multiset(column)| == |column|;
    r
  }

  /** Membership form of the column view: a task is shown in column `s` iff it is listed with status `s`. */
  lemma ColumnMembers(tasks: seq<Task>, s: Status, t: Task)
    ensures t in GetTasksForColumn(tasks, s) <==> t in tasks && t.status == s
  {
  }

  /**
    What `handleDrop` asks the server for: nothing without a dragged task or when the
    task is dropped onto its own column, otherwise a move to the end of the target
    column, whose position is the column's current task count.
   */
  function DropRequest(dragged: Option<Task>, tasks: seq<Task>, newStatus: Status): (r: Option<MoveTaskInput>)
    ensures r.Some? <==> dragged.Some? && dragged.value.status != newStatus
    ensures r.Some? ==> r.value.id == dragged.value.id && r.value.status == newStatus
    ensures r.Some? ==> r.value.position == |GetTasksForColumn(tasks, newStatus)|
    ensures r.Some? ==> ValidMoveInput(r.value)
  {
    match dragged
    case None => None
    case Some(t) =>
      if t.status == newStatus then None
      else Some(MoveTaskInput(t.id, newStatus, |GetTasksForColumn(tasks, newStatus)|))
  }

  /** The board's drag state: the task being dragged and the column under the pointer. */
  class DragState {
    var draggedTask: Option<Task>
    var dragOverColumn: Option<Status>

    constructor ()
      ensures draggedTask == None && dragOverColumn == None
    {
      draggedTask := None;
      dragOverColumn := None;
    }

    method DragStart(task: Task)
      modifies this
      ensures draggedTask == Some(task) && dragOverColumn == old(dragOverColumn)
    {
      draggedTask := Some(task);
    }

    method DragEnd()
      modifies this
      ensures draggedTask == None && dragOverColumn == None
    {
      draggedTask := None;
      dragOverColumn := None;
    }

    method DragOver(column: Status)
      modifies this
      ensures dragOverColumn == Some(column) && draggedTask == old(draggedTask)
    {
      dragOverColumn := Some(column);
    }

    method DragLeave()
      modifies this
      ensures dragOverColumn == None && draggedTask == old(draggedTask)
    {
      dragOverColumn := None;
    }

    /**
      Is column `c` highlighted as a drop target? Only while the pointer is over it,
      and never for the dragged task's own column.
     */
    function IsDropTarget(c: Status): (b: bool)
      reads this
      ensures b <==> dragOverColumn == Some(c) && !(draggedTask.Some? && draggedTask.value.status == c)
    {
      dragOverColumn == Some(c) && (draggedTask.None? || draggedTask.value.status != c)
    }

    /**
      `handleDrop`: returns the move to send, if any. Without a dragged task nothing
      changes at all; otherwise both fields are cleared, whether or not a move is sent
      and whether or not it succeeds.
     */
    method Drop(tasks: seq<Task>, newStatus: Status) returns (request: Option<MoveTaskInput>)
      modifies this
      ensures request == DropRequest(old(draggedTask), tasks, newStatus)
      ensures old(draggedTask).None? ==> draggedTask == None && dragOverColumn == old(dragOverColumn)
      ensures old(draggedTask).Some? ==> draggedTask == None && dragOverColumn == None
    {
      if draggedTask.None? {
        return None;
      }
      var task := draggedTask.value;
      if task.status == newStatus {
        draggedTask := None;
        dragOverColumn := None;
        return None;
      }
      var destination := GetTasksForColumn(tasks, newStatus);
      request := Some(MoveTaskInput(task.id, newStatus, |destination|));
      draggedTask := None;
      dragOverColumn := None;
    }
  }
}
