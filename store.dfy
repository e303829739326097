/**
  The server-side task table and its seven handlers. The table is a map from the
  serial id to the row; each handler is one atomic step on it. Row-level reference
  definitions (MoveRows, DeleteRows, Reordered, Patched) state the effect of a handler
  on every row at once; the handler methods perform the same effect the way the
  handlers do, one bulk UPDATE or DELETE statement at a time.
 */
module Store {
  import opened Schema
  import opened Listing

  /** The position condition of a bulk `UPDATE ... WHERE`. */
  datatype Range = AtLeast(lo: int) | Between(lo: int, hi: int)
  {
    predicate Contains(p: int)
    {
      match this
      case AtLeast(lo) => lo <= p
      case Between(lo, hi) => lo <= p <= hi
    }
  }

  /** A row shifted by `delta` places, with its updated_at refreshed. */
  function Bump(t: Task, delta: int, now: nat): Task
  {
    t.(position := t.position + delta, updatedAt := now)
  }

  /**
    `UPDATE tasks SET position = position + delta, updated_at = now
     WHERE status = s AND <range holds of position>`
   */
  function Shift(m: map<int, Task>, s: Status, range: Range, delta: int, now: nat): (r: map<int, Task>)
    ensures r.Keys == m.Keys
  {
    map k | k in m :: if m[k].status == s && range.Contains(m[k].position) then Bump(m[k], delta, now) else m[k]
  }

  /** A bulk update moves exactly the rows its WHERE clause selects, refreshing their updated_at. */
  lemma ShiftRow(m: map<int, Task>, s: Status, range: Range, delta: int, now: nat, k: int)
    requires k in m
    ensures m[k].status == s && range.Contains(m[k].position) ==>
      Shift(m, s, range, delta, now)[k] == m[k].(position := m[k].position + delta, updatedAt := now)
    ensures m[k].status != s || !range.Contains(m[k].position) ==> Shift(m, s, range, delta, now)[k] == m[k]
  {
  }

  /** `a` and `b` agree on everything but status, position and updated_at. */
  predicate SameContent(a: Task, b: Task)
  {
    a.id == b.id && a.title == b.title && a.description == b.description &&
    a.color == b.color && a.createdAt == b.createdAt
  }

  /**
    The case table of moveTask for a row `t` other than the moved one, when `moved`
    goes to column `dest` at position `p`.
   */
  function AfterMove(moved: Task, dest: Status, p: int, now: nat, t: Task): Task
  {
    var src, o := moved.status, moved.position;
    if src != dest then
      // make room in the destination, close the gap in the source
      if t.status == dest && t.position >= p then Bump(t, 1, now)
      else if t.status == src && t.position > o then Bump(t, -1, now)
      else t
    // same column, moving down: the rows in (o, p] move up one place
    else if t.status == src && o < p && o < t.position <= p then Bump(t, -1, now)
    // same column, moving up: the rows in [p, o) move down one place
    else if t.status == src && p < o && p <= t.position < o then Bump(t, 1, now)
    else t
  }

  /** The whole table after moving row `id` to column `dest` at position `p`. */
  function MoveRows(m: map<int, Task>, id: int, dest: Status, p: int, now: nat): (r: map<int, Task>)
    requires id in m
    ensures r.Keys == m.Keys
    ensures r[id] == m[id].(status := dest, position := p, updatedAt := now)
    ensures forall k | k in m :: SameContent(r[k], m[k])
    ensures forall k | k in m && k != id :: r[k].status == m[k].status
    ensures forall k | k in m && k != id && m[k].status != m[id].status && m[k].status != dest :: r[k] == m[k]
    ensures m[id].status == dest && m[id].position == p ==> forall k | k in m && k != id :: r[k] == m[k]
  {
    map k | k in m :: if k == id then m[id].(status := dest, position := p, updatedAt := now)
                      else AfterMove(m[id], dest, p, now, m[k])
  }

  /** A cross-column move as the handler performs it: two bulk updates, then the row write. */
  lemma CrossColumnSteps(m: map<int, Task>, shifted: map<int, Task>, id: int, dest: Status, p: int, now: nat)
    requires id in m && m[id].status != dest
    requires shifted == Shift(Shift(m, dest, AtLeast(p), 1, now), m[id].status, AtLeast(m[id].position + 1), -1, now)
    ensures shifted[id := shifted[id].(status := dest, position := p, updatedAt := now)] == MoveRows(m, id, dest, p, now)
  {
  }

  /** Moving down a column: one bulk update of the rows in (o, p], then the row write. */
  lemma MoveDownSteps(m: map<int, Task>, shifted: map<int, Task>, id: int, p: int, now: nat)
    requires id in m && p > m[id].position
    requires shifted == Shift(m, m[id].status, Between(m[id].position + 1, p), -1, now)
    ensures shifted[id := shifted[id].(status := m[id].status, position := p, updatedAt := now)] ==
      MoveRows(m, id, m[id].status, p, now)
  {
  }

  /** Moving up a column: one bulk update of the rows in [p, o), then the row write. */
  lemma MoveUpSteps(m: map<int, Task>, shifted: map<int, Task>, id: int, p: int, now: nat)
    requires id in m && p < m[id].position
    requires shifted == Shift(m, m[id].status, Between(p, m[id].position - 1), 1, now)
    ensures shifted[id := shifted[id].(status := m[id].status, position := p, updatedAt := now)] ==
      MoveRows(m, id, m[id].status, p, now)
  {
  }

  /** Staying in place: only the row write, which still refreshes updated_at. */
  lemma StayInPlaceSteps(m: map<int, Task>, id: int, now: nat)
    requires id in m
    ensures m[id := m[id].(status := m[id].status, position := m[id].position, updatedAt := now)] ==
      MoveRows(m, id, m[id].status, m[id].position, now)
  {
  }

  /** The whole table after deleting row `id` and closing the gap it leaves. */
  function DeleteRows(m: map<int, Task>, id: int, now: nat): (r: map<int, Task>)
    requires id in m
    ensures r.Keys == m.Keys - {id}
    ensures forall k | k in r :: SameContent(r[k], m[k]) && r[k].status == m[k].status
    ensures forall k | k in r && (m[k].status != m[id].status || m[k].position <= m[id].position) :: r[k] == m[k]
    ensures forall k | k in r && m[k].status == m[id].status && m[k].position > m[id].position :: r[k] == Bump(m[k], -1, now)
  {
    map k | k in m && k != id ::
      if m[k].status == m[id].status && m[k].position > m[id].position then Bump(m[k], -1, now) else m[k]
  }

  /** Does some entry of a reorder batch name `id`? */
  predicate Listed(items: seq<ReorderItem>, id: int)
  {
    exists k | 0 <= k < |items| :: items[k].id == id
  }

  /** An id named by a prefix of the batch is named by the batch. */
  lemma ListedPrefix(items: seq<ReorderItem>, n: int, id: int)
    requires 0 <= n <= |items| && Listed(items[..n], id)
    ensures Listed(items, id)
  {
  }

  /** The position that the last entry naming `id` writes: later writes win. */
  function LastPosition(items: seq<ReorderItem>, id: int): (p: int)
    requires Listed(items, id)
    ensures exists k | 0 <= k < |items| :: items[k] == ReorderItem(id, p) && forall j | k < j < |items| :: items[j].id != id
  {
    var n := |items|;
    if items[n - 1].id == id then items[n - 1].position
    else
      var prefix := items[..n - 1];
      assert Listed(prefix, id) by {
        var k :| 0 <= k < n && items[k].id == id;
        assert prefix[k] == items[k];
      }
      var p := LastPosition(prefix, id);
      var k :| 0 <= k < |prefix| && prefix[k] == ReorderItem(id, p) && forall j | k < j < |prefix| :: prefix[j].id != id;
      assert items[k] == prefix[k];
      assert forall j | k < j < n :: items[j].id != id by {
        forall j | k < j < n ensures items[j].id != id {
          if j < n - 1 { assert items[j] == prefix[j]; }
        }
      }
      p
  }

  /**
    The whole table after the entries of a batch are written in list order, each
    `UPDATE tasks SET position = p, updated_at = now WHERE id = i`.
   */
  function Reordered(m: map<int, Task>, items: seq<ReorderItem>, now: nat): (r: map<int, Task>)
    ensures r.Keys == m.Keys
    ensures forall k | k in m :: SameContent(r[k], m[k]) && r[k].status == m[k].status
    decreases |items|
  {
    if items == [] then m
    else
      var n := |items|;
      var x := items[n - 1];
      var before := Reordered(m, items[..n - 1], now);
      if x.id in before then before[x.id := before[x.id].(position := x.position, updatedAt := now)]
      else before
  }

  /** A row the batch does not name is left exactly as it was. */
  lemma {:induction false} ReorderedKeepsUnlisted(m: map<int, Task>, items: seq<ReorderItem>, now: nat, k: int)
    requires k in m && !Listed(items, k)
    ensures Reordered(m, items, now)[k] == m[k]
    decreases |items|
  {
    if items != [] {
      var n := |items|;
      if Listed(items[..n - 1], k) {
        ListedPrefix(items, n - 1, k);
        assert false;
      }
      assert items[n - 1].id != k by {
        assert items[n - 1] == items[n - 1];
      }
      ReorderedKeepsUnlisted(m, items[..n - 1], now, k);
    }
  }

  /** Every row the batch names ends with the position of the last entry naming it. */
  lemma {:induction false} ReorderedLastWins(m: map<int, Task>, items: seq<ReorderItem>, now: nat, k: int)
    requires k in m && Listed(items, k)
    ensures Reordered(m, items, now)[k] == m[k].(position := LastPosition(items, k), updatedAt := now)
    decreases |items|
  {
    var n := |items|;
    if items[n - 1].id != k {
      assert Listed(items[..n - 1], k) by {
        var j :| 0 <= j < n && items[j].id == k;
        assert items[..n - 1][j] == items[j];
      }
      ReorderedLastWins(m, items[..n - 1], now, k);
    }
  }

  /** Every entry of the batch names a row of the table. */
  predicate AllPresent(items: seq<ReorderItem>, m: map<int, Task>)
  {
    forall k | 0 <= k < |items| :: items[k].id in m
  }

  /** Entry `k` is the first entry of the batch naming no row of the table. */
  predicate FirstMissing(items: seq<ReorderItem>, m: map<int, Task>, k: int)
  {
    0 <= k < |items| && items[k].id !in m && forall j | 0 <= j < k :: items[j].id in m
  }

  /** One more entry of the batch: the prefix through entry `i` writes that entry's row last. */
  lemma ReorderedStep(m: map<int, Task>, items: seq<ReorderItem>, i: int, now: nat)
    requires 0 <= i < |items| && items[i].id in m
    ensures Reordered(m, items[..i + 1], now) ==
      Reordered(m, items[..i], now)[items[i].id := Reordered(m, items[..i], now)[items[i].id].(position := items[i].position, updatedAt := now)]
  {
    assert items[..i + 1][..i] == items[..i];
  }

  /** A row after updateTask: the given fields are overwritten, the others kept. */
  function Patched(t: Task, input: UpdateTaskInput, now: nat): (r: Task)
    ensures r.id == t.id && r.position == t.position && r.createdAt == t.createdAt && r.updatedAt == now
    ensures input.title.None? ==> r.title == t.title
    ensures input.title.Some? ==> r.title == input.title.value
    ensures input.description.None? ==> r.description == t.description
    ensures input.description.Some? ==> r.description == input.description.value
    ensures input.color.None? ==> r.color == t.color
    ensures input.color.Some? ==> r.color == input.color.value
    ensures input.status.None? ==> r.status == t.status
    ensures input.status.Some? ==> r.status == input.status.value
  {
    t.(title := match input.title case Some(v) => v case None => t.title,
       description := match input.description case Some(v) => v case None => t.description,
       color := match input.color case Some(v) => v case None => t.color,
       status := match input.status case Some(v) => v case None => t.status,
       updatedAt := now)
  }

  /** `mx` is what `max(position)` over the rows of column `s` among `ks` returns (None for SQL NULL). */
  ghost predicate IsMaxOver(m: map<int, Task>, ks: set<int>, s: Status, mx: Option<int>)
    requires ks <= m.Keys
  {
    (mx.None? <==> forall k | k in ks :: m[k].status != s) &&
    (mx.Some? ==>
      (exists k | k in ks :: m[k].status == s && m[k].position == mx.value) &&
      (forall k | k in ks && m[k].status == s :: m[k].position <= mx.value))
  }

  ghost predicate IsColumnMax(m: map<int, Task>, s: Status, mx: Option<int>)
  {
    IsMaxOver(m, m.Keys, s, mx)
  }

  ghost predicate ColumnEmpty(m: map<int, Task>, s: Status)
  {
    forall k | k in m :: m[k].status != s
  }

  /** `(max || 0) + 1`: NULL and 0 both count as 0. */
  function NextPosition(mx: Option<int>): (p: int)
    ensures mx.None? ==> p == 1
    ensures mx.Some? ==> p == mx.value + 1
  {
    (if mx.Some? && mx.value != 0 then mx.value else 0) + 1
  }

  class TaskStore {
    var tasks: map<int, Task>
    /** The next value of the serial id column. */
    var nextId: int

    ghost predicate Valid()
      reads this
    {
      nextId >= 1 && WellKeyed(tasks) && forall k | k in tasks :: 1 <= k < nextId
    }

    constructor ()
      ensures Valid() && tasks == map[] && nextId == 1
    {
      tasks := map[];
      nextId := 1;
    }

    /** getTaskById: the row with that id, or null. */
    function GetTaskById(id: int): (r: Option<Task>)
      reads this
      requires Valid()
      ensures r.None? <==> id !in tasks
      ensures r.Some? ==> r.value.id == id && r.value == tasks[id]
    {
      if id in tasks then Some(tasks[id]) else None
    }

    /** getTasks: every row exactly once, ordered by status and then position. */
    function GetTasks(): (r: seq<Task>)
      reads this
      requires Valid()
      ensures InListOrder(r)
      ensures |r| == |tasks|
      ensures forall t | t in r :: t.id in tasks && tasks[t.id] == t
      ensures forall k | k in tasks :: multiset(r)[tasks[k]] == 1
    {
      SortedRows(tasks, tasks.Keys)
    }

    /** `SELECT max(position) FROM tasks WHERE status = s`, one row at a time. */
    method MaxPosition(s: Status) returns (mx: Option<int>)
      ensures IsColumnMax(tasks, s, mx)
    {
      mx := None;
      var rest := tasks.Keys;
      while rest != {}
        invariant rest <= tasks.Keys
        invariant IsMaxOver(tasks, tasks.Keys - rest, s, mx)
        decreases rest
      {
        if forall k :: k !in rest { assert false; }
        var k :| k in rest;
        var row := tasks[k];
        if row.status == s && (mx.None? || mx.value < row.position) {
          mx := Some(row.position);
        }
        rest := rest - {k};
      }
    }

    /** createTask: append at `max(position) + 1` in the target column. */
    method Create(input: CreateTaskInput, now: nat) returns (t: Task)
      requires Valid() && ValidCreateInput(input)
      modifies this
      ensures Valid()
      ensures t.id == old(nextId) && t.id !in old(tasks) && nextId == old(nextId) + 1
      ensures tasks == old(tasks)[t.id := t]
      ensures t.title == input.title && t.description == input.description && t.color == input.color
      ensures t.status == CreateStatus(input) && t.createdAt == now && t.updatedAt == now
      ensures ColumnEmpty(old(tasks), t.status) ==> t.position == 1
      ensures !ColumnEmpty(old(tasks), t.status) ==> IsColumnMax(old(tasks), t.status, Some(t.position - 1))
    {
      var status := CreateStatus(input);
      var mx := MaxPosition(status);
      var position := NextPosition(mx);
      t := Task(nextId, input.title, input.description, input.color, status, position, now, now);
      tasks := tasks[nextId := t];
      nextId := nextId + 1;
    }

    /** updateTask: overwrite the given fields of one row; never repositions anything. */
    method Update(input: UpdateTaskInput, now: nat) returns (r: Result<Task>)
      requires Valid() && ValidUpdateInput(input)
      modifies this
      ensures Valid() && nextId == old(nextId)
      ensures input.id !in old(tasks) ==> r == Err(NotFound(input.id)) && tasks == old(tasks)
      ensures input.id in old(tasks) ==>
        r == Ok(Patched(old(tasks)[input.id], input, now)) && tasks == old(tasks)[input.id := r.value]
    {
      if input.id !in tasks {
        return Err(NotFound(input.id));
      }
      var row := tasks[input.id].(updatedAt := now);
      if input.title.Some? {
        row := row.(title := input.title.value);
      }
      if input.description.Some? {
        row := row.(description := input.description.value);
      }
      if input.color.Some? {
        row := row.(color := input.color.value);
      }
      if input.status.Some? {
        row := row.(status := input.status.value);
      }
      tasks := tasks[input.id := row];
      r := Ok(row);
    }

    /** deleteTask: remove the row, then close the gap in its column. */
    method Delete(id: int, now: nat) returns (r: Outcome)
      requires Valid()
      modifies this
      ensures Valid() && nextId == old(nextId)
      ensures id !in old(tasks) ==> r == Fail(NotFound(id)) && tasks == old(tasks)
      ensures id in old(tasks) ==> r == Pass && tasks == DeleteRows(old(tasks), id, now)
    {
      if id !in tasks {
        return Fail(NotFound(id));
      }
      var victim := tasks[id];
      tasks := tasks - {id};
      tasks := Shift(tasks, victim.status, AtLeast(victim.position + 1), -1, now);
      r := Pass;
    }

    /** moveTask: shift the affected rows, then write the moved row. */
    method Move(input: MoveTaskInput, now: nat) returns (r: Result<Task>)
      requires Valid() && ValidMoveInput(input)
      modifies this
      ensures Valid() && nextId == old(nextId)
      ensures input.id !in old(tasks) ==> r == Err(NotFound(input.id)) && tasks == old(tasks)
      ensures input.id in old(tasks) ==>
        tasks == MoveRows(old(tasks), input.id, input.status, input.position, now) &&
        r == Ok(tasks[input.id])
    {
      if input.id !in tasks {
        return Err(NotFound(input.id));
      }
      var task := tasks[input.id];
      var oldStatus, oldPosition := task.status, task.position;
      var newStatus, newPosition := input.status, input.position;
      var rows := tasks;
      if oldStatus != newStatus {
        rows := Shift(rows, newStatus, AtLeast(newPosition), 1, now);
        rows := Shift(rows, oldStatus, AtLeast(oldPosition + 1), -1, now);
        CrossColumnSteps(tasks, rows, input.id, newStatus, newPosition, now);
      } else if newPosition > oldPosition {
        rows := Shift(rows, newStatus, Between(oldPosition + 1, newPosition), -1, now);
        MoveDownSteps(tasks, rows, input.id, newPosition, now);
      } else if newPosition < oldPosition {
        rows := Shift(rows, newStatus, Between(newPosition, oldPosition - 1), 1, now);
        MoveUpSteps(tasks, rows, input.id, newPosition, now);
      } else {
        StayInPlaceSteps(rows, input.id, now);
      }
      tasks := rows[input.id := rows[input.id].(status := newStatus, position := newPosition, updatedAt := now)];
      r := Ok(tasks[input.id]);
    }

    /**
      reorderTasks: overwrite positions in list order inside one transaction; the
      first missing id aborts the batch and nothing it wrote is kept.
     */
    method Reorder(items: seq<ReorderItem>, now: nat) returns (r: Outcome)
      requires Valid() && ValidReorderInput(items)
      modifies this
      ensures Valid() && nextId == old(nextId)
      ensures r.Pass? <==> AllPresent(items, old(tasks))
      ensures r.Pass? ==> tasks == Reordered(old(tasks), items, now)
      ensures r.Fail? ==> tasks == old(tasks)
      ensures r.Fail? ==> exists k :: FirstMissing(items, old(tasks), k) && r.error == NotFound(items[k].id)
    {
      var base := tasks;
      var staged := base;
      var i := 0;
      while i < |items|
        modifies {}
        invariant 0 <= i <= |items|
        invariant AllPresent(items[..i], base)
        invariant staged == Reordered(base, items[..i], now)
      {
        var item := items[i];
        assert staged.Keys == base.Keys;
        if item.id !in staged {
          assert FirstMissing(items, base, i) by {
            forall j | 0 <= j < i ensures items[j].id in base { assert items[..i][j] == items[j]; }
          }
          return Fail(NotFound(item.id));
        }
        assert AllPresent(items[..i + 1], base) by {
          var prefix := items[..i + 1];
          forall j | 0 <= j < i + 1 ensures prefix[j].id in base {
            if j < i { assert prefix[j] == items[..i][j]; }
          }
        }
        ReorderedStep(base, items, i, now);
        staged := staged[item.id := staged[item.id].(position := item.position, updatedAt := now)];
        assert staged == Reordered(base, items[..i + 1], now);
        i := i + 1;
      }
      assert items[..i] == items;
      tasks := staged;
      r := Pass;
    }
  }
}
