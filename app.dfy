/**
  The client's own copy of the task list. After each remote call returns, the app
  updates its list locally instead of reloading it: create appends, update merges
  the given fields, delete filters, move rewrites one task. A remote call that
  fails leaves the list as it was.
 */
module App {
  import opened Schema
  import opened Store
  import opened Board

  /** What the task form submits to handleTaskCreate. */
  datatype TaskData = TaskData(title: string, description: Option<string>, color: string)

  /**
    A `Partial<Task>`: every field may be absent. `updated_at` is left out because
    the merge always overwrites it.
   */
  datatype TaskPatch = TaskPatch(
    id: Option<int>,
    title: Option<string>,
    description: Option<Option<string>>,
    color: Option<string>,
    status: Option<Status>,
    position: Option<int>,
    createdAt: Option<nat>)

  /** The task handleTaskCreate adds: in the todo column, at the todo column's current count. */
  function LocalTask(tasks: seq<Task>, data: TaskData, id: int, now: nat): (t: Task)
    ensures t.id == id && t.title == data.title && t.description == data.description && t.color == data.color
    ensures t.status == Todo && t.position == |GetTasksForColumn(tasks, Todo)|
    ensures t.createdAt == now && t.updatedAt == now
  {
    Task(id, data.title, data.description, data.color, Todo, |TasksWithStatus(tasks, Todo)|, now, now)
  }

  /** The tasks of `c` hold positions 0 .. |c|-1, each once. */
  predicate PositionsDense(c: seq<Task>)
  {
    (forall i | 0 <= i < |c| :: 0 <= c[i].position < |c|) &&
    (forall i, j | 0 <= i < j < |c| :: c[i].position != c[j].position)
  }

  /** The tasks of column `s`, in list order, hold positions 0 .. n-1, each once. */
  predicate ListColumnDense(tasks: seq<Task>, s: Status)
  {
    PositionsDense(TasksWithStatus(tasks, s))
  }

  /** A task placed at the position equal to the length extends a dense run. */
  lemma AppendKeepsDense(c: seq<Task>, t: Task)
    requires PositionsDense(c) && t.position == |c|
    ensures PositionsDense(c + [t])
  {
  }

  /** The appended task becomes the last task of the todo column, which is otherwise unchanged. */
  lemma LocalCreateAppendsToTodo(tasks: seq<Task>, data: TaskData, id: int, now: nat)
    ensures var t := LocalTask(tasks, data, id, now);
      TasksWithStatus(tasks + [t], Todo) == TasksWithStatus(tasks, Todo) + [t]
  {
    var t := LocalTask(tasks, data, id, now);
    FilterAppend(tasks, [t], Todo);
    assert TasksWithStatus([t], Todo) == [t];
  }

  /** Its position is its index in the todo column, so a dense todo column stays dense. */
  lemma LocalCreateKeepsTodoDense(tasks: seq<Task>, data: TaskData, id: int, now: nat)
    requires ListColumnDense(tasks, Todo)
    ensures ListColumnDense(tasks + [LocalTask(tasks, data, id, now)], Todo)
  {
    var t := LocalTask(tasks, data, id, now);
    LocalCreateAppendsToTodo(tasks, data, id, now);
    AppendKeepsDense(TasksWithStatus(tasks, Todo), t);
  }

  /** `{ ...task, ...updates, updated_at: now }` */
  function ApplyPatch(t: Task, patch: TaskPatch, now: nat): (r: Task)
    ensures patch.id.None? ==> r.id == t.id
    ensures patch.id.Some? ==> r.id == patch.id.value
    ensures patch.title.None? ==> r.title == t.title
    ensures patch.title.Some? ==> r.title == patch.title.value
    ensures patch.description.None? ==> r.description == t.description
    ensures patch.description.Some? ==> r.description == patch.description.value
    ensures patch.color.None? ==> r.color == t.color
    ensures patch.color.Some? ==> r.color == patch.color.value
    ensures patch.status.None? ==> r.status == t.status
    ensures patch.status.Some? ==> r.status == patch.status.value
    ensures patch.position.None? ==> r.position == t.position
    ensures patch.position.Some? ==> r.position == patch.position.value
    ensures patch.createdAt.None? ==> r.createdAt == t.createdAt
    ensures patch.createdAt.Some? ==> r.createdAt == patch.createdAt.value
    ensures r.updatedAt == now
  {
    Task(
      id := match patch.id case Some(v) => v case None => t.id,
      title := match patch.title case Some(v) => v case None => t.title,
      description := match patch.description case Some(v) => v case None => t.description,
      color := match patch.color case Some(v) => v case None => t.color,
      status := match patch.status case Some(v) => v case None => t.status,
      position := match patch.position case Some(v) => v case None => t.position,
      createdAt := match patch.createdAt case Some(v) => v case None => t.createdAt,
      updatedAt := now)
  }

  /** The fields an update request carries, as a patch. */
  function PatchOf(input: UpdateTaskInput): TaskPatch
  {
    TaskPatch(None, input.title, input.description, input.color, input.status, None, None)
  }

  /** For the fields of an update request the local merge computes the same row as updateTask. */
  lemma LocalPatchAgreesWithServer(t: Task, input: UpdateTaskInput, now: nat)
    ensures ApplyPatch(t, PatchOf(input), now) == Patched(t, input, now)
  {
  }

  /** handleTaskUpdate's updater: every task with the id is merged, every other kept, in place. */
  function LocalUpdate(tasks: seq<Task>, id: int, patch: TaskPatch, now: nat): (r: seq<Task>)
    ensures |r| == |tasks|
    ensures forall i | 0 <= i < |tasks| && tasks[i].id != id :: r[i] == tasks[i]
    ensures forall i | 0 <= i < |tasks| && tasks[i].id == id :: r[i] == ApplyPatch(tasks[i], patch, now)
  {
    seq(|tasks|, i requires 0 <= i < |tasks| =>
      if tasks[i].id == id then ApplyPatch(tasks[i], patch, now) else tasks[i])
  }

  /** handleTaskDelete's updater: `prev.filter(task => task.id !== id)`. */
  function LocalDelete(tasks: seq<Task>, id: int): (r: seq<Task>)
    ensures |r| <= |tasks|
    ensures forall t | t in r :: t.id != id
  {
    if tasks == [] then []
    else (if tasks[0].id != id then [tasks[0]] else []) + LocalDelete(tasks[1..], id)
  }

  /** Exactly the tasks with the id are removed; every other task stays as often as it was listed. */
  lemma {:induction false} LocalDeleteRemovesExactly(tasks: seq<Task>, id: int)
    ensures forall t :: multiset(LocalDelete(tasks, id))[t] == if t.id == id then 0 else multiset(tasks)[t]
  {
    if tasks != [] {
      LocalDeleteRemovesExactly(tasks[1..], id);
      assert tasks == [tasks[0]] + tasks[1..];
    }
  }

  /** Deleting keeps the order of the remaining tasks: it distributes over concatenation. */
  lemma {:induction false} LocalDeleteKeepsOrder(a: seq<Task>, b: seq<Task>, id: int)
    ensures LocalDelete(a + b, id) == LocalDelete(a, id) + LocalDelete(b, id)
  {
    if a == [] {
      assert a + b == b;
    } else {
      var head := if a[0].id != id then [a[0]] else [];
      assert (a + b)[0] == a[0] && (a + b)[1..] == a[1..] + b;
      assert LocalDelete(a + b, id) == head + LocalDelete(a[1..] + b, id);
      assert LocalDelete(a, id) == head + LocalDelete(a[1..], id);
      LocalDeleteKeepsOrder(a[1..], b, id);
    }
  }

  /** handleTaskMove's updater: the moved task gets the new status and position, nothing else shifts. */
  function LocalMove(tasks: seq<Task>, id: int, newStatus: Status, newPosition: int, now: nat): (r: seq<Task>)
    ensures |r| == |tasks|
    ensures forall i | 0 <= i < |tasks| && tasks[i].id != id :: r[i] == tasks[i]
    ensures forall i | 0 <= i < |tasks| && tasks[i].id == id ::
      r[i] == tasks[i].(status := newStatus, position := newPosition, updatedAt := now)
  {
    seq(|tasks|, i requires 0 <= i < |tasks| =>
      if tasks[i].id == id then tasks[i].(status := newStatus, position := newPosition, updatedAt := now)
      else tasks[i])
  }

  /** The local move writes the moved task exactly as moveTask does. */
  lemma LocalMoveAgreesOnMovedTask(m: map<int, Task>, tasks: seq<Task>, i: int, dest: Status, p: int, now: nat)
    requires 0 <= i < |tasks| && tasks[i].id in m && m[tasks[i].id] == tasks[i]
    ensures LocalMove(tasks, tasks[i].id, dest, p, now)[i] == MoveRows(m, tasks[i].id, dest, p, now)[tasks[i].id]
  {
  }

  /**
    The local move does not close the gap it leaves: a task above the moved one in
    the column it leaves keeps its old position locally, while moveTask lowers it.
   */
  lemma LocalMoveSkipsShifts(m: map<int, Task>, tasks: seq<Task>, id: int, j: int, dest: Status, p: int, now: nat)
    requires id in m && m[id].status != dest
    requires 0 <= j < |tasks| && tasks[j].id != id && tasks[j].id in m && m[tasks[j].id] == tasks[j]
    requires tasks[j].status == m[id].status && tasks[j].position > m[id].position
    ensures LocalMove(tasks, id, dest, p, now)[j] == tasks[j]
    ensures MoveRows(m, id, dest, p, now)[tasks[j].id].position == tasks[j].position - 1
  {
  }

  /** The app's state: its copy of the task list and whether the create dialog is open. */
  class AppState {
    var tasks: seq<Task>
    var isCreateDialogOpen: bool

    constructor ()
      ensures tasks == [] && !isCreateDialogOpen
    {
      tasks := [];
      isCreateDialogOpen := false;
    }

    /**
      handleTaskCreate. `remoteOk` says whether the createTask call returned; `id`
      stands for the client-chosen id.
     */
    method HandleTaskCreate(data: TaskData, id: int, now: nat, remoteOk: bool)
      modifies this
      ensures remoteOk ==> tasks == old(tasks) + [LocalTask(old(tasks), data, id, now)] && !isCreateDialogOpen
      ensures !remoteOk ==> tasks == old(tasks) && isCreateDialogOpen == old(isCreateDialogOpen)
    {
      if remoteOk {
        var created := LocalTask(tasks, data, id, now);
        tasks := tasks + [created];
        isCreateDialogOpen := false;
      }
    }

    method HandleTaskUpdate(taskId: int, updates: TaskPatch, now: nat, remoteOk: bool)
      modifies this
      ensures tasks == if remoteOk then LocalUpdate(old(tasks), taskId, updates, now) else old(tasks)
      ensures isCreateDialogOpen == old(isCreateDialogOpen)
    {
      if remoteOk {
        tasks := LocalUpdate(tasks, taskId, updates, now);
      }
    }

    method HandleTaskDelete(taskId: int, remoteOk: bool)
      modifies this
      ensures tasks == if remoteOk then LocalDelete(old(tasks), taskId) else old(tasks)
      ensures isCreateDialogOpen == old(isCreateDialogOpen)
    {
      if remoteOk {
        tasks := LocalDelete(tasks, taskId);
      }
    }

    method HandleTaskMove(taskId: int, newStatus: Status, newPosition: int, now: nat, remoteOk: bool)
      modifies this
      ensures tasks == if remoteOk then LocalMove(old(tasks), taskId, newStatus, newPosition, now) else old(tasks)
      ensures isCreateDialogOpen == old(isCreateDialogOpen)
    {
      if remoteOk {
        tasks := LocalMove(tasks, taskId, newStatus, newPosition, now);
      }
    }
  }
}
