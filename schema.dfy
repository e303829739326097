/**
  The task record, the status enum and the validated input shapes shared by the
  server handlers and the client.
 */
module Schema {

  datatype Option<T> = None | Some(value: T)

  /** The `task_status` enum. Its declaration order is the order listings sort by. */
  datatype Status = Todo | InProgress | Completed

  /** Position of a status in the enum declaration. */
  function Rank(s: Status): (r: nat)
    ensures r < 3
    ensures r == 0 <==> s == Todo
    ensures r == 2 <==> s == Completed
  {
    match s
    case Todo => 0
    case InProgress => 1
    case Completed => 2
  }

  /** The wire name of a status. */
  function StatusName(s: Status): string
  {
    match s
    case Todo => "todo"
    case InProgress => "in_progress"
    case Completed => "completed"
  }

  /** Parsing a status the way the enum schema does: only the three names are accepted. */
  function ParseStatus(name: string): (r: Option<Status>)
    ensures r.Some? ==> StatusName(r.value) == name
    ensures forall s: Status :: StatusName(s) == name ==> r == Some(s)
  {
    if name == "todo" then Some(Todo)
    else if name == "in_progress" then Some(InProgress)
    else if name == "completed" then Some(Completed)
    else None
  }

  /**
    A stored task. `description` is nullable (None is SQL NULL). `position` is any
    integer: only the inputs restrict it to be non-negative. The two timestamps are
    logical clock readings.
   */
  datatype Task = Task(
    id: int,
    title: string,
    description: Option<string>,
    color: string,
    status: Status,
    position: int,
    createdAt: nat,
    updatedAt: nat)

  /** The table is keyed by the serial id: every row is stored under its own id. */
  predicate WellKeyed(m: map<int, Task>)
  {
    forall k | k in m :: m[k].id == k
  }

  /** The only failure the handlers raise themselves: "Task with id N not found". */
  datatype Error = NotFound(id: int)

  datatype Result<T> = Ok(value: T) | Err(error: Error)

  datatype Outcome = Pass | Fail(error: Error)

  /** Input of createTask; a missing status defaults to todo. */
  datatype CreateTaskInput = CreateTaskInput(
    title: string,
    description: Option<string>,
    color: string,
    status: Option<Status>)

  predicate ValidCreateInput(input: CreateTaskInput)
  {
    |input.title| >= 1 && |input.color| >= 1
  }

  function CreateStatus(input: CreateTaskInput): (s: Status)
    ensures input.status.None? ==> s == Todo
    ensures input.status.Some? ==> s == input.status.value
  {
    match input.status
    case Some(s) => s
    case None => Todo
  }

  /**
    Input of updateTask. Every field but the id is optional; `description` is
    optional AND nullable: None leaves it alone, Some(None) sets it to NULL.
   */
  datatype UpdateTaskInput = UpdateTaskInput(
    id: int,
    title: Option<string>,
    description: Option<Option<string>>,
    color: Option<string>,
    status: Option<Status>)

  predicate ValidUpdateInput(input: UpdateTaskInput)
  {
    (input.title.Some? ==> |input.title.value| >= 1) &&
    (input.color.Some? ==> |input.color.value| >= 1)
  }

  /** Input of moveTask (drag and drop). */
  datatype MoveTaskInput = MoveTaskInput(id: int, status: Status, position: int)

  predicate ValidMoveInput(input: MoveTaskInput)
  {
    input.position >= 0
  }

  /** One entry of a reorderTasks batch. */
  datatype ReorderItem = ReorderItem(id: int, position: int)

  predicate ValidReorderInput(items: seq<ReorderItem>)
  {
    forall k | 0 <= k < |items| :: items[k].position >= 0
  }
}
