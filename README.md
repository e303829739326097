# Kanban board: task positions, modelled in Dafny

The kanban board keeps tasks in three columns: todo, in progress and completed. Every
task has an integer `position` that orders it within its column. The server stores
the tasks in one table and has seven handlers:

- createTask, updateTask, deleteTask and moveTask;
- reorderTasks;
- getTasks and getTaskById.

The client renders each column sorted by position. Dropping a card on another column
sends a move to the end of that column. After each remote call the client updates its
own copy of the list without reloading it.

This project models both sides and proves what holds of the positions. The central
notion is a **dense** column: a column of n tasks whose positions are 0 .. n-1, each
used once. No handler checks density, and several can break it. What is proved is
which operations keep a column dense, under which conditions, and which ones break it.

- **moveTask** keeps every column dense when the target position is in range. That
  range is at most the destination's size for a cross-column move, and below the
  column's size within one column. The handler does not check it. Past that range,
  the move leaves a gap in the column.
- **deleteTask** always keeps every column dense, and the column shrinks by one.
- **createTask** numbers from 1, as `(max || 0) + 1`. The first task of an empty
  column therefore breaks density. On a non-empty dense column the new position
  equals the column size, and density is kept.
- **updateTask** may change a task's status without repositioning anything. This
  leaves a gap in the column the task leaves, and can collide in the column it enters.
- **reorderTasks** writes whatever positions it is given. Duplicates break density.
  A renumbering of every row of a column onto distinct positions 0 .. n-1 makes that
  column dense.
- **Client and server together:** a drop on the listing that getTasks returns asks
  for a move to the destination column's task count. That move keeps every column
  dense.

Modules:

- `Schema` (schema.dfy): the task record, the status enum and the input
  validations.
- `Listing` (listing.dfy): the `ORDER BY status, position` order of getTasks.
- `Store` (store.dfy): the table as class `TaskStore`, over a `map` from id to row
  and the serial counter, with one method per handler. It also holds the row-level
  reference definitions of each handler's effect: `MoveRows`, `DeleteRows`,
  `Reordered` and `Patched`.
- `Density` (density.dfy): the density invariant and its lemmas.
- `Board` (board.dfy): the board view and the drag state, as class `DragState`.
- `App` (app.dfy): the list updaters of the app and its state, as class `AppState`.
- `Sync` (sync.dfy): the drop-to-move property that spans client and server.

Timestamps are a logical clock value `now` passed to each mutating operation. A
transaction is one method call that either commits its whole effect or changes
nothing.

Three behaviours of the code are worth knowing when reading the lemmas:

- **createTask positions.** createTask takes `max(position)` of the column, treats
  NULL and 0 alike as 0, and adds 1. The first task of a column therefore gets
  position 1, while the client numbers from 0 (`Store.NextPosition`,
  `Store.TaskStore.Create`).
- **updateTask and status.** updateTask writes a new status and touches no other
  row (`Store.TaskStore.Update`).
- **handleTaskMove.** The client's move rewrites only the moved task. It does not
  shift the neighbours that moveTask shifts (`App.LocalMoveSkipsShifts`).

## Model

| member | source | states |
|---|---|---|
| Schema.Rank | server/src/db/schema.ts:4 | the enum's declaration order: todo first, completed last, in progress between |
| Schema.ParseStatus | server/src/schema.ts:4 | only the three enum names parse, each to the status whose wire name it is |
| Schema.CreateStatus | server/src/schema.ts:26 | a missing status defaults to todo; a given one is kept |
| Schema.ValidCreateInput | server/src/schema.ts:22-27 | the create schema: title and color are non-empty; description may be null |
| Schema.ValidUpdateInput | server/src/schema.ts:32-38 | the update schema: a given title or color is non-empty; every field but the id is optional |
| Schema.ValidMoveInput | server/src/schema.ts:43-47 | the move schema: the target position is a non-negative integer, with no upper bound |
| Schema.ValidReorderInput | server/src/schema.ts:52-57 | the reorder schema: every position is a non-negative integer; ids may repeat |
| Listing.InsertListed | server/src/handlers/get_tasks.ts:9-12 | inserting a row into a listing in `status, position` order keeps that order and adds exactly that row |
| Listing.SortedRows | server/src/handlers/get_tasks.ts:9-12 | the rows of the table under a key set, each exactly once, in `status, position` order |
| Store.MoveRows | server/src/handlers/move_task.ts:28-102 | the table after a move: the moved row gets the new status, position and timestamp; every row keeps its content and every other row keeps its status; rows of any column the move neither leaves nor enters are untouched; a move onto the row's own place changes no other row |
| Store.Shift | server/src/handlers/move_task.ts:30-41 | a bulk `UPDATE ... WHERE status AND position range` keeps the set of rows |
| Store.ShiftRow | server/src/handlers/delete_task.ts:27-36 | a bulk update moves each row its WHERE clause selects by `delta` and refreshes its updated_at; every other row is untouched |
| Store.CrossColumnSteps | server/src/handlers/move_task.ts:28-55 | a cross-column move as the handler runs it: make room in the destination from `p` on, close the gap after the old position, then write the moved row; the result is `MoveRows` |
| Store.MoveDownSteps | server/src/handlers/move_task.ts:59-73 | moving down a column: the rows in (old, new] move up one place, then the moved row is written; the result is `MoveRows` |
| Store.MoveUpSteps | server/src/handlers/move_task.ts:74-88 | moving up a column: the rows in [new, old) move down one place, then the moved row is written; the result is `MoveRows` |
| Store.StayInPlaceSteps | server/src/handlers/move_task.ts:93-102 | a move onto the row's own place only rewrites that row, refreshing updated_at; the result is `MoveRows` |
| Store.DeleteRows | server/src/handlers/delete_task.ts:27-36 | the table after a delete: the row is gone; rows of its column after the deleted position move up one place with updated_at refreshed; every other row is untouched |
| Store.LastPosition | server/src/handlers/reorder_tasks.ts:11-19 | the position of the last entry of the batch naming the id: that entry is in the batch and no later entry names the id |
| Store.Reordered | server/src/handlers/reorder_tasks.ts:9-25 | the table after a batch of position writes in list order keeps its rows, their content and their statuses |
| Store.ReorderedKeepsUnlisted | server/src/handlers/reorder_tasks.ts:11-17 | a row the batch does not name is unchanged |
| Store.ReorderedLastWins | server/src/handlers/reorder_tasks.ts:11-17 | a row the batch names ends with the position of the last entry naming it, and the batch's timestamp |
| Store.Patched | server/src/handlers/update_task.ts:9-27 | updateTask's row: each given field is overwritten, each absent one kept; id, position and created_at are kept; updated_at is refreshed |
| Store.NextPosition | server/src/handlers/create_task.ts:9-15 | `(max \|\| 0) + 1`: 1 for an empty column, else max + 1 |
| Store.TaskStore.constructor | server/src/db/schema.ts:7-16 | an empty table whose serial starts at 1 |
| Store.TaskStore.GetTaskById | server/src/handlers/get_task_by_id.ts:8-18 | the row with that id, or null exactly when there is none |
| Store.TaskStore.GetTasks | server/src/handlers/get_tasks.ts:9-12 | every row exactly once and nothing else, in `status, position` order |
| Store.TaskStore.MaxPosition | server/src/handlers/create_task.ts:9-13 | `max(position)` over the column: NULL exactly when the column is empty, else a position held by a row of the column and at least every such position |
| Store.TaskStore.Create | server/src/handlers/create_task.ts:9-28 | inserts one fresh row under the next serial id with the given fields; its position is 1 in an empty column, else the column's max + 1 |
| Store.TaskStore.Update | server/src/handlers/update_task.ts:9-38 | not found leaves the table unchanged; otherwise only that row changes, to `Patched` |
| Store.TaskStore.Delete | server/src/handlers/delete_task.ts:13-36 | not found leaves the table unchanged; otherwise the table becomes `DeleteRows` |
| Store.TaskStore.Move | server/src/handlers/move_task.ts:6-104 | not found leaves the table unchanged; otherwise the two bulk updates of the case that applies, then the final row write, give exactly `MoveRows`, and the moved row is returned |
| Store.TaskStore.Reorder | server/src/handlers/reorder_tasks.ts:9-25 | succeeds exactly when every id is present, and then the table is `Reordered`; otherwise it fails on the first missing id and nothing written is kept |
| Density.DenseCovers | server/src/schema.ts:14 | pigeonhole: in a dense column of n rows every position 0 .. n-1 is held |
| Density.DenseExact | server/src/schema.ts:14 | a dense column's positions are exactly 0 .. n-1 |
| Density.CrossMoveRow | server/src/handlers/move_task.ts:28-55 | in a cross-column move, destination rows at or after `p` move down one place, source rows after the moved row move up one place, both with updated_at refreshed; every other row is untouched |
| Density.SameColumnRow | server/src/handlers/move_task.ts:58-88 | in a move within a column, the rows in (old, new] move up one place, or the rows in [new, old) move down one place, with updated_at refreshed; every other row is untouched |
| Density.MoveKeepsThirdColumn | server/src/handlers/move_task.ts:28-55 | a column the move neither leaves nor enters keeps its density |
| Density.CrossMoveKeepsSource | server/src/handlers/move_task.ts:43-55 | the column a cross-column move leaves closes its gap and stays dense |
| Density.CrossMoveKeepsDestination | server/src/handlers/move_task.ts:29-41 | the column entered at a position in 0 .. n makes room and stays dense |
| Density.SameColumnMoveKeepsDensity | server/src/handlers/move_task.ts:58-88 | a move within a column to a position below its size keeps the column dense |
| Density.MovePreservesDensity | server/src/handlers/move_task.ts:6-104 | moveTask keeps every column dense when the target position is in range |
| Density.CrossMovePastEndBreaksDensity | server/src/schema.ts:43-47 | only non-negativity is checked: a cross-column move past the destination's end leaves a gap |
| Density.SameColumnMovePastEndBreaksDensity | server/src/schema.ts:43-47 | a move within a column to a position at or past its size breaks density |
| Density.DeleteKeepsColumn | server/src/handlers/delete_task.ts:27-36 | the column of the deleted row shrinks by one and stays dense |
| Density.DeletePreservesDensity | server/src/handlers/delete_task.ts:21-36 | deleteTask keeps every column dense |
| Density.DeleteKeepsOrder | server/src/handlers/delete_task.ts:27-36 | deleting keeps the relative order of the remaining rows of the column |
| Density.CreateIntoEmptyColumnBreaksDensity | server/src/handlers/create_task.ts:15 | the first task of an empty column gets position 1, so the column is not dense |
| Density.CreateOntoDenseColumnKeepsDensity | server/src/handlers/create_task.ts:9-28 | on a non-empty dense column, max + 1 is the column size, and every column stays dense |
| Density.CreateRaisesColumnMax | server/src/handlers/create_task.ts:9-28 | after a create the new row holds its column's maximum; other columns' maxima are unchanged |
| Density.UpdateStatusLeavesGap | server/src/handlers/update_task.ts:23-25 | changing the status of a row that is not last in its column leaves that column not dense |
| Density.UpdateStatusCollides | server/src/handlers/update_task.ts:23-25 | changing the status into a dense column, keeping an in-range position, collides with a row there |
| Density.ReorderDuplicateBreaksDensity | server/src/handlers/reorder_tasks.ts:11-17 | two rows of one column left at the same position make that column not dense |
| Density.ReorderRenumberingMakesDense | server/src/handlers/reorder_tasks.ts:11-17 | renumbering every row of a column onto distinct positions 0 .. n-1 makes it dense |
| Board.TasksWithStatus | client/src/components/KanbanBoard.tsx:44 | the filter keeps only tasks of the column, and no more tasks than the list |
| Board.FilterCounts | client/src/components/KanbanBoard.tsx:44 | the filter keeps each task of the column as often as it is listed, and no other task |
| Board.FilterAppend | client/src/components/KanbanBoard.tsx:44 | filtering distributes over concatenation, so it keeps list order |
| Board.InsertByPosition | client/src/components/KanbanBoard.tsx:45 | inserting into a position-sorted list keeps it sorted and adds exactly that task |
| Board.SortByPosition | client/src/components/KanbanBoard.tsx:45 | sorting yields a permutation of the input in ascending position order |
| Board.GetTasksForColumn | client/src/components/KanbanBoard.tsx:42-46 | exactly the column's tasks, each as often as listed, in ascending position; as many as the filter keeps |
| Board.ColumnMembers | client/src/components/KanbanBoard.tsx:42-46 | a task is shown in a column iff it is listed with that status |
| Board.DropRequest | client/src/components/KanbanBoard.tsx:66-90 | a move is requested iff a task is dragged onto another column; it names that task and column, and its position is the destination's current count |
| Board.DragState.constructor | client/src/components/KanbanBoard.tsx:38-39 | nothing is dragged and no column is hovered |
| Board.DragState.DragStart | client/src/components/KanbanBoard.tsx:48-50 | the task becomes the dragged task; the hovered column is kept |
| Board.DragState.DragEnd | client/src/components/KanbanBoard.tsx:52-55 | both fields are cleared |
| Board.DragState.DragOver | client/src/components/KanbanBoard.tsx:57-60 | the column becomes the hovered column; the dragged task is kept |
| Board.DragState.DragLeave | client/src/components/KanbanBoard.tsx:62-64 | the hovered column is cleared; the dragged task is kept |
| Board.DragState.IsDropTarget | client/src/components/KanbanBoard.tsx:96 | a column is highlighted iff it is hovered and is not the dragged task's own column |
| Board.DragState.Drop | client/src/components/KanbanBoard.tsx:66-90 | returns `DropRequest` for the dragged task; with no dragged task nothing changes, otherwise both fields are cleared |
| App.LocalTask | client/src/App.tsx:110-119 | the local task has the form's fields, status todo, timestamps `now`, and position equal to the todo column's count |
| App.AppendKeepsDense | client/src/App.tsx:116-121 | a task whose position equals the length extends a run of distinct positions 0 .. n-1 |
| App.LocalCreateAppendsToTodo | client/src/App.tsx:121 | after the append, the todo column is the old todo column followed by the new task |
| App.LocalCreateKeepsTodoDense | client/src/App.tsx:116-121 | a dense todo column in the local list stays dense after a create |
| App.ApplyPatch | client/src/App.tsx:136 | `{ ...task, ...updates, updated_at }`: each given field overrides, each absent one is kept, and updated_at is refreshed |
| App.LocalPatchAgreesWithServer | client/src/App.tsx:128-139 | for the fields of an update request, the local merge computes the same row as updateTask |
| App.LocalUpdate | client/src/App.tsx:133-139 | same length; tasks with the id are merged in place, every other task is kept |
| App.LocalDelete | client/src/App.tsx:150 | no task with the id remains, and the list does not grow |
| App.LocalDeleteRemovesExactly | client/src/App.tsx:150 | exactly the tasks with the id are removed; every other task stays as often as it was listed |
| App.LocalDeleteKeepsOrder | client/src/App.tsx:150 | the filter distributes over concatenation, so it keeps the order of the rest |
| App.LocalMove | client/src/App.tsx:165-171 | same length; the task with the id gets the new status, position and timestamp, and every other task is kept |
| App.LocalMoveAgreesOnMovedTask | client/src/App.tsx:165-171 | the moved task is written as moveTask writes it |
| App.LocalMoveSkipsShifts | client/src/App.tsx:165-171 | a task below the moved one in the column it leaves keeps its position locally, while moveTask lowers it by one |
| App.AppState.constructor | client/src/App.tsx:102-122 | an empty list and a closed create dialog |
| App.AppState.HandleTaskCreate | client/src/App.tsx:102-126 | on success, appends `LocalTask` and closes the dialog; on failure, changes nothing |
| App.AppState.HandleTaskUpdate | client/src/App.tsx:128-143 | on success the list becomes `LocalUpdate`, otherwise it is unchanged; the dialog is untouched |
| App.AppState.HandleTaskDelete | client/src/App.tsx:145-154 | on success the list becomes `LocalDelete`, otherwise it is unchanged; the dialog is untouched |
| App.AppState.HandleTaskMove | client/src/App.tsx:156-176 | on success the list becomes `LocalMove`, otherwise it is unchanged; the dialog is untouched |
| Sync.ListedColumnSize | client/src/components/KanbanBoard.tsx:79-80 | on the full listing getTasks returns, a column shows as many tasks as the table's column has rows |
| Sync.DropOnListingKeepsDensity | client/src/components/KanbanBoard.tsx:66-90 | dropping a listed task on another column asks for a move to that column's size, and that move keeps every column dense |

## Left out

- Database access, transport and the tRPC layer are not modelled. Each handler is
  one atomic step on an in-memory table.
- Concurrency is not modelled: interleaved requests and isolation levels.
- Error handling for database failures is left out. Only the handlers' own "not
  found" errors are modelled.
- Positions are unbounded integers. The `position` column is a 32-bit `integer`, so
  a shift past its range fails with an out-of-range error. In deleteTask that failure
  comes after the row is already gone. Neither failure is modelled.
- Wall-clock time is not modelled. `sql now()` and `new Date()` are one logical value
  `now` per call.
- Store.TaskStore.Delete: deleteTask does its select, delete and update outside a
  transaction. The model makes them one atomic step.
- Store.TaskStore.Create: the returned row is modelled. The row insert is one map
  update. `max()` over an empty column is NULL, modelled as `None`.
- Listing.SortedRows: the database leaves the order of rows that tie on
  (status, position) unspecified. The model fixes one order, by id, and its
  contract states only the order by status and position.
- Board.SortByPosition: `Array.prototype.sort` stability is not stated. The contract
  gives the order by position and the multiset of tasks, not the order of ties.
- App.AppState.HandleTaskCreate: the client's id is `Date.now()`, so it is a
  parameter here. The position is read from the closure's `tasks` rather than from
  `prev`. The model uses the list as it was before the call, so a state change
  between render and update is not captured.
- App.AppState.HandleTaskUpdate: `updates` is a `Partial<Task>`. Its `updated_at` is
  always overwritten, so it is not a field of `TaskPatch`.
- The outcome of each remote call is the parameter `remoteOk`. A rejected call is
  caught and leaves the state unchanged.
- Loading the list, the demo data, the forms, the dialogs and the rendering of cards
  and columns are not modelled.
- server/src/index.ts (the router) is not modelled. The inputs are assumed already
  validated by the zod schemas, stated as `Valid*Input` preconditions.
