/**
  The client and the server together: a drop computed on the list getTasks returns
  asks for exactly the move under which moveTask keeps every column dense.
 */
module Sync {
  import opened Schema
  import opened Listing
  import opened Store
  import opened Density
  import opened Board

  /** Distinct keys of a well-keyed table hold distinct rows. */
  lemma {:induction false} RowsSize(m: map<int, Task>, ks: set<int>)
    requires ks <= m.Keys && WellKeyed(m)
    ensures |set k | k in ks :: m[k]| == |ks|
    decreases ks
  {
    if ks != {} {
      if forall k :: k !in ks { assert false; }
      var k :| k in ks;
      RowsSize(m, ks - {k});
      assert (set j | j in ks :: m[j]) == (set j | j in ks - {k} :: m[j]) + {m[k]};
      assert m[k] !in (set j | j in ks - {k} :: m[j]);
    }
  }

  /** The full listing holds every row of the table once and nothing else. */
  lemma ListingCount(m: map<int, Task>, t: Task)
    requires WellKeyed(m)
    ensures multiset(SortedRows(m, m.Keys))[t] == if t.id in m && m[t.id] == t then 1 else 0
  {
  }

  /** The rows of a column, as a set, hold each row of that column once. */
  lemma ColumnRowsCount(m: map<int, Task>, s: Status, t: Task)
    requires WellKeyed(m)
    ensures multiset(set k | k in Column(m, s) :: m[k])[t] == if t.id in m && m[t.id] == t && t.status == s then 1 else 0
  {
  }

  /** A list holding each row of the table once shows as many tasks in a column as the column has rows. */
  lemma FilteredSize(r: seq<Task>, m: map<int, Task>, s: Status)
    requires WellKeyed(m)
    requires forall t :: multiset(r)[t] == if t.id in m && m[t.id] == t then 1 else 0
    ensures |TasksWithStatus(r, s)| == |Column(m, s)|
  {
    var f := TasksWithStatus(r, s);
    var c := Column(m, s);
    var rows := set k | k in c :: m[k];
    FilterCounts(r, s);
    forall t ensures multiset(f)[t] == multiset(rows)[t] {
      ColumnRowsCount(m, s, t);
    }
    assert multiset(f) == multiset(rows);
    RowsSize(m, c);
    assert |f| == |multiset(f)| == |multiset(rows)| == |rows|;
  }

  /** The column view of the full listing shows as many tasks as the column has rows. */
  lemma ListedColumnSize(m: map<int, Task>, s: Status)
    requires WellKeyed(m)
    ensures |GetTasksForColumn(SortedRows(m, m.Keys), s)| == |Column(m, s)|
  {
    var r := SortedRows(m, m.Keys);
    forall t: Task ensures multiset(r)[t] == if t.id in m && m[t.id] == t then 1 else 0 {
      ListingCount(m, t);
    }
    FilteredSize(r, m, s);
  }

  /**
    Dropping a listed task onto another column asks for a move to that column's size,
    and that move keeps every column dense.
   */
  lemma DropOnListingKeepsDensity(m: map<int, Task>, dragged: Task, dest: Status, now: nat)
    requires WellKeyed(m) && AllDense(m)
    requires dragged.id in m && m[dragged.id] == dragged && dragged.status != dest
    ensures var request := DropRequest(Some(dragged), SortedRows(m, m.Keys), dest);
      request == Some(MoveTaskInput(dragged.id, dest, |Column(m, dest)|)) &&
      AllDense(MoveRows(m, dragged.id, dest, |Column(m, dest)|, now))
  {
    ListedColumnSize(m, dest);
    MovePreservesDensity(m, dragged.id, dest, |Column(m, dest)|, now);
  }
}
