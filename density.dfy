/**
  The column-density invariant: the rows of a column of size n hold positions
  0 .. n-1, each exactly once. Which handlers keep it, under which conditions, and
  counter-examples for the ones that do not.
 */
module Density {
  import opened Schema
  import opened Store

  /** Keys of the rows in column `s`. */
  function Column(m: map<int, Task>, s: Status): set<int>
  {
    set k | k in m && m[k].status == s
  }

  /** Every row of column `s` sits in 0 .. n-1, and no two share a position. */
  predicate Dense(m: map<int, Task>, s: Status)
  {
    (forall k | k in m && m[k].status == s :: 0 <= m[k].position < |Column(m, s)|) &&
    (forall j, k | j in m && k in m && j != k && m[j].status == s && m[k].status == s ::
       m[j].position != m[k].position)
  }

  predicate AllDense(m: map<int, Task>)
  {
    forall s: Status :: Dense(m, s)
  }

  /** The positions held by the rows under `ks`. */
  function Positions(m: map<int, Task>, ks: set<int>): set<int>
    requires ks <= m.Keys
  {
    set k | k in ks :: m[k].position
  }

  /** The positions 0 .. n-1. */
  function Span(n: nat): (r: set<int>)
    ensures forall i :: i in r <==> 0 <= i < n
    ensures |r| == n
  {
    if n == 0 then {} else Span(n - 1) + {n - 1}
  }

  /** Rows with pairwise different positions occupy as many positions as there are rows. */
  lemma {:induction false} PositionsSize(m: map<int, Task>, ks: set<int>)
    requires ks <= m.Keys
    requires forall j, k | j in ks && k in ks && j != k :: m[j].position != m[k].position
    ensures |Positions(m, ks)| == |ks|
    decreases ks
  {
    if ks != {} {
      if forall k :: k !in ks { assert false; }
      var k :| k in ks;
      PositionsSize(m, ks - {k});
      assert Positions(m, ks) == Positions(m, ks - {k}) + {m[k].position};
      assert m[k].position !in Positions(m, ks - {k});
    }
  }

  /** A subset as large as its superset is the whole superset. */
  lemma SubsetOfSameSize(a: set<int>, b: set<int>)
    requires a <= b && |a| == |b|
    ensures a == b
  {
    var rest := b - a;
    assert b == a + rest;
    assert a * rest == {};
    assert |rest| == 0;
  }

  /** In a dense column every position 0 .. n-1 is taken (pigeonhole). */
  lemma DenseCovers(m: map<int, Task>, s: Status, q: int)
    requires Dense(m, s) && 0 <= q < |Column(m, s)|
    ensures exists k | k in m :: m[k].status == s && m[k].position == q
  {
    var c := Column(m, s);
    var n := |c|;
    PositionsSize(m, c);
    var taken := Positions(m, c);
    assert taken <= Span(n);
    SubsetOfSameSize(taken, Span(n));
    assert q in taken;
  }

  /** A dense column's positions are exactly 0 .. n-1. */
  lemma DenseExact(m: map<int, Task>, s: Status)
    requires Dense(m, s)
    ensures Positions(m, Column(m, s)) == Span(|Column(m, s)|)
  {
    var c := Column(m, s);
    forall q | q in Span(|c|) ensures q in Positions(m, c) {
      DenseCovers(m, s, q);
      var k :| k in m && m[k].status == s && m[k].position == q;
      assert k in c;
    }
  }

  /** A column whose rows are the same in both tables is dense in one exactly when in the other. */
  lemma SameColumnRows(m: map<int, Task>, r: map<int, Task>, s: Status)
    requires forall k | k in r && r[k].status == s :: k in m && m[k] == r[k]
    requires forall k | k in m && m[k].status == s :: k in r && r[k] == m[k]
    ensures Column(r, s) == Column(m, s)
    ensures Dense(r, s) == Dense(m, s)
  {
    forall k ensures k in Column(r, s) <==> k in Column(m, s) {
      if k in r && r[k].status == s {
        assert k in m && m[k] == r[k];
      }
      if k in m && m[k].status == s {
        assert k in r && r[k] == m[k];
      }
    }
    assert Column(r, s) == Column(m, s);
  }

  // ----- moveTask -----

  /** A column the move neither leaves nor enters keeps its rows, so keeps its density. */
  lemma MoveKeepsThirdColumn(m: map<int, Task>, id: int, dest: Status, p: int, now: nat, s: Status)
    requires id in m && s != m[id].status && s != dest && Dense(m, s)
    ensures Dense(MoveRows(m, id, dest, p, now), s)
  {
    var r := MoveRows(m, id, dest, p, now);
    SameColumnRows(m, r, s);
  }

  /**
    Where a cross-column move puts a row other than the moved one: destination rows at
    or after `p` move one place down, source rows after the moved row one place up,
    each with updated_at refreshed; every other row is untouched.
   */
  lemma CrossMoveRow(m: map<int, Task>, id: int, dest: Status, p: int, now: nat, k: int)
    requires id in m && m[id].status != dest && k in m && k != id
    ensures MoveRows(m, id, dest, p, now)[k].status == m[k].status
    ensures m[k].status == dest ==>
      MoveRows(m, id, dest, p, now)[k].position == if m[k].position >= p then m[k].position + 1 else m[k].position
    ensures m[k].status == m[id].status ==>
      MoveRows(m, id, dest, p, now)[k].position == if m[k].position > m[id].position then m[k].position - 1 else m[k].position
    ensures m[k].status == dest && m[k].position >= p ==> MoveRows(m, id, dest, p, now)[k] == Bump(m[k], 1, now)
    ensures m[k].status == m[id].status && m[k].position > m[id].position ==>
      MoveRows(m, id, dest, p, now)[k] == Bump(m[k], -1, now)
    ensures !(m[k].status == dest && m[k].position >= p) && !(m[k].status == m[id].status && m[k].position > m[id].position) ==>
      MoveRows(m, id, dest, p, now)[k] == m[k]
  {
  }

  /**
    Where a move inside one column puts a row other than the moved one: moving down,
    the rows in (o, p] move one place up; moving up, the rows in [p, o) move one place
    down; each shifted row gets updated_at refreshed, and every other row is untouched.
   */
  lemma SameColumnRow(m: map<int, Task>, id: int, p: int, now: nat, k: int)
    requires id in m && k in m && k != id
    ensures var o := m[id].position;
      MoveRows(m, id, m[id].status, p, now)[k].position ==
        if m[k].status == m[id].status && o < p && o < m[k].position <= p then m[k].position - 1
        else if m[k].status == m[id].status && p < o && p <= m[k].position < o then m[k].position + 1
        else m[k].position
    ensures var o := m[id].position;
      m[k].status == m[id].status && o < p && o < m[k].position <= p ==>
        MoveRows(m, id, m[id].status, p, now)[k] == Bump(m[k], -1, now)
    ensures var o := m[id].position;
      m[k].status == m[id].status && p < o && p <= m[k].position < o ==>
        MoveRows(m, id, m[id].status, p, now)[k] == Bump(m[k], 1, now)
    ensures var o := m[id].position;
      !(m[k].status == m[id].status && ((o < p && o < m[k].position <= p) || (p < o && p <= m[k].position < o))) ==>
        MoveRows(m, id, m[id].status, p, now)[k] == m[k]
  {
  }

  /** The column a cross-column move leaves closes its gap and stays dense. */
  lemma CrossMoveKeepsSource(m: map<int, Task>, id: int, dest: Status, p: int, now: nat)
    requires id in m && m[id].status != dest && Dense(m, m[id].status)
    ensures Dense(MoveRows(m, id, dest, p, now), m[id].status)
  {
    var r := MoveRows(m, id, dest, p, now);
    var src := m[id].status;
    var n := |Column(m, src)|;
    assert id in Column(m, src);
    assert Column(r, src) == Column(m, src) - {id};
    forall k | k in r && r[k].status == src ensures 0 <= r[k].position < n - 1 {
      CrossMoveRow(m, id, dest, p, now, k);
    }
    forall j, k | j in r && k in r && j != k && r[j].status == src && r[k].status == src
      ensures r[j].position != r[k].position
    {
      CrossMoveRow(m, id, dest, p, now, j);
      CrossMoveRow(m, id, dest, p, now, k);
    }
  }

  /** The column a cross-column move enters at a position in 0 .. n makes room and stays dense. */
  lemma CrossMoveKeepsDestination(m: map<int, Task>, id: int, dest: Status, p: int, now: nat)
    requires id in m && m[id].status != dest && Dense(m, dest)
    requires 0 <= p <= |Column(m, dest)|
    ensures Dense(MoveRows(m, id, dest, p, now), dest)
  {
    var r := MoveRows(m, id, dest, p, now);
    var n := |Column(m, dest)|;
    assert id !in Column(m, dest);
    assert Column(r, dest) == Column(m, dest) + {id};
    forall k | k in r && r[k].status == dest ensures 0 <= r[k].position <= n {
      if k != id {
        CrossMoveRow(m, id, dest, p, now, k);
      }
    }
    forall j, k | j in r && k in r && j != k && r[j].status == dest && r[k].status == dest
      ensures r[j].position != r[k].position
    {
      if j != id {
        CrossMoveRow(m, id, dest, p, now, j);
      }
      if k != id {
        CrossMoveRow(m, id, dest, p, now, k);
      }
    }
  }

  /** A move inside one column to a position below its size keeps it dense. */
  lemma SameColumnMoveKeepsDensity(m: map<int, Task>, id: int, p: int, now: nat)
    requires id in m && Dense(m, m[id].status)
    requires 0 <= p < |Column(m, m[id].status)|
    ensures Dense(MoveRows(m, id, m[id].status, p, now), m[id].status)
  {
    var s := m[id].status;
    var n := |Column(m, s)|;
    var r := MoveRows(m, id, s, p, now);
    assert Column(r, s) == Column(m, s);
    forall k | k in r && r[k].status == s ensures 0 <= r[k].position < n {
      if k != id {
        SameColumnRow(m, id, p, now, k);
      }
    }
    forall j, k | j in r && k in r && j != k && r[j].status == s && r[k].status == s
      ensures r[j].position != r[k].position
    {
      if j != id {
        SameColumnRow(m, id, p, now, j);
      }
      if k != id {
        SameColumnRow(m, id, p, now, k);
      }
    }
  }

  /**
    Density preservation for moveTask. The handler does not check the target
    position, so the bound is a precondition: at most the destination's size for a
    cross-column move, below the column's size for a move inside one column.
   */
  lemma MovePreservesDensity(m: map<int, Task>, id: int, dest: Status, p: int, now: nat)
    requires id in m && AllDense(m) && 0 <= p
    requires m[id].status != dest ==> p <= |Column(m, dest)|
    requires m[id].status == dest ==> p < |Column(m, dest)|
    ensures AllDense(MoveRows(m, id, dest, p, now))
  {
    var r := MoveRows(m, id, dest, p, now);
    forall s: Status ensures Dense(r, s) {
      if s != m[id].status && s != dest {
        MoveKeepsThirdColumn(m, id, dest, p, now, s);
      } else if m[id].status != dest {
        CrossMoveKeepsSource(m, id, dest, p, now);
        CrossMoveKeepsDestination(m, id, dest, p, now);
      } else {
        SameColumnMoveKeepsDensity(m, id, p, now);
      }
    }
  }

  /** Counter-example: a cross-column move past the end of the destination leaves a gap there. */
  lemma CrossMovePastEndBreaksDensity(m: map<int, Task>, id: int, dest: Status, p: int, now: nat)
    requires id in m && m[id].status != dest && p > |Column(m, dest)|
    ensures !Dense(MoveRows(m, id, dest, p, now), dest)
  {
    var r := MoveRows(m, id, dest, p, now);
    assert Column(r, dest) == Column(m, dest) + {id};
    assert r[id].position >= |Column(r, dest)|;
  }

  /** Counter-example: a move inside a column to a position at or past its size. */
  lemma SameColumnMovePastEndBreaksDensity(m: map<int, Task>, id: int, p: int, now: nat)
    requires id in m && p >= |Column(m, m[id].status)|
    ensures !Dense(MoveRows(m, id, m[id].status, p, now), m[id].status)
  {
    var s := m[id].status;
    var r := MoveRows(m, id, s, p, now);
    assert Column(r, s) == Column(m, s);
    assert r[id].position >= |Column(r, s)|;
  }

  // ----- deleteTask -----

  /** Deleting a row closes the gap in its column, which stays dense. */
  lemma DeleteKeepsColumn(m: map<int, Task>, id: int, now: nat)
    requires id in m && Dense(m, m[id].status)
    ensures |Column(DeleteRows(m, id, now), m[id].status)| == |Column(m, m[id].status)| - 1
    ensures Dense(DeleteRows(m, id, now), m[id].status)
  {
    var r := DeleteRows(m, id, now);
    var s, d := m[id].status, m[id].position;
    var n := |Column(m, s)|;
    assert id in Column(m, s);
    assert Column(r, s) == Column(m, s) - {id};
    forall k | k in r && r[k].status == s
      ensures m[k].status == s && m[k].position != d && 0 <= m[k].position < n
      ensures r[k].position == if m[k].position > d then m[k].position - 1 else m[k].position
    {
    }
  }

  /** Deleting a row shrinks its column by one and keeps every column dense. */
  lemma DeletePreservesDensity(m: map<int, Task>, id: int, now: nat)
    requires id in m && AllDense(m)
    ensures |Column(DeleteRows(m, id, now), m[id].status)| == |Column(m, m[id].status)| - 1
    ensures AllDense(DeleteRows(m, id, now))
  {
    var r := DeleteRows(m, id, now);
    var s := m[id].status;
    DeleteKeepsColumn(m, id, now);
    forall t: Status ensures Dense(r, t) {
      if t != s {
        SameColumnRows(m, r, t);
      }
    }
  }

  /** Deleting from a dense column keeps the relative order of the rows that remain. */
  lemma DeleteKeepsOrder(m: map<int, Task>, id: int, now: nat, j: int, k: int)
    requires id in m && Dense(m, m[id].status)
    requires j in m && k in m && j != id && k != id && m[j].status == m[k].status
    ensures m[j].position < m[k].position <==>
      DeleteRows(m, id, now)[j].position < DeleteRows(m, id, now)[k].position
  {
  }

  // ----- createTask -----

  /** Counter-example: createTask numbers from 1, so the first row of a column breaks density. */
  lemma CreateIntoEmptyColumnBreaksDensity(m: map<int, Task>, t: Task)
    requires t.id !in m && ColumnEmpty(m, t.status) && t.position == 1
    ensures !Dense(m[t.id := t], t.status)
  {
    var r := m[t.id := t];
    forall k | k in Column(r, t.status) ensures k == t.id {
      if k != t.id {
        assert false;
      }
    }
    assert t.id in Column(r, t.status);
    assert Column(r, t.status) == {t.id};
  }

  /** Onto a non-empty dense column, `max + 1` is the column size, so density is kept. */
  lemma CreateOntoDenseColumnKeepsDensity(m: map<int, Task>, t: Task)
    requires t.id !in m && AllDense(m) && !ColumnEmpty(m, t.status)
    requires IsColumnMax(m, t.status, Some(t.position - 1))
    ensures t.position == |Column(m, t.status)|
    ensures AllDense(m[t.id := t])
  {
    var s := t.status;
    var n := |Column(m, s)|;
    var k0 :| k0 in m && m[k0].status == s;
    assert k0 in Column(m, s);
    DenseCovers(m, s, n - 1);
    var top :| top in m && m[top].status == s && m[top].position == t.position - 1;
    assert t.position == n;
    var r := m[t.id := t];
    assert t.id !in Column(m, s);
    assert Column(r, s) == Column(m, s) + {t.id};
    forall u: Status ensures Dense(r, u) {
      if u != s {
        SameColumnRows(m, r, u);
      }
    }
  }

  /** After a create the new row holds its column's maximum, so the next create goes one higher. */
  lemma CreateRaisesColumnMax(m: map<int, Task>, t: Task)
    requires t.id !in m
    requires ColumnEmpty(m, t.status) ==> t.position == 1
    requires !ColumnEmpty(m, t.status) ==> IsColumnMax(m, t.status, Some(t.position - 1))
    ensures IsColumnMax(m[t.id := t], t.status, Some(t.position))
    ensures forall s, mx | s != t.status :: IsColumnMax(m[t.id := t], s, mx) <==> IsColumnMax(m, s, mx)
  {
    var r := m[t.id := t];
    assert r.Keys == m.Keys + {t.id};
  }

  // ----- updateTask -----

  /** Counter-example: changing the status of a row that is not last in its column leaves a gap. */
  lemma UpdateStatusLeavesGap(m: map<int, Task>, id: int, input: UpdateTaskInput, now: nat)
    requires id in m && Dense(m, m[id].status)
    requires input.status.Some? && input.status.value != m[id].status
    requires m[id].position != |Column(m, m[id].status)| - 1
    ensures !Dense(m[id := Patched(m[id], input, now)], m[id].status)
  {
    var s := m[id].status;
    var n := |Column(m, s)|;
    assert id in Column(m, s);
    DenseCovers(m, s, n - 1);
    var last :| last in m && m[last].status == s && m[last].position == n - 1;
    var r := m[id := Patched(m[id], input, now)];
    assert Column(r, s) == Column(m, s) - {id};
    assert r[last] == m[last];
  }

  /** Counter-example: changing the status into a dense column lands on a taken position. */
  lemma UpdateStatusCollides(m: map<int, Task>, id: int, input: UpdateTaskInput, now: nat)
    requires id in m && input.status.Some? && input.status.value != m[id].status
    requires Dense(m, input.status.value)
    requires 0 <= m[id].position < |Column(m, input.status.value)|
    ensures !Dense(m[id := Patched(m[id], input, now)], input.status.value)
  {
    var d := input.status.value;
    DenseCovers(m, d, m[id].position);
    var other :| other in m && m[other].status == d && m[other].position == m[id].position;
    var r := m[id := Patched(m[id], input, now)];
    assert other != id;
    assert r[other] == m[other];
    assert r[id].status == d && r[id].position == m[id].position;
  }

  // ----- reorderTasks -----

  /** Counter-example: two rows of one column given the same position are both written. */
  lemma ReorderDuplicateBreaksDensity(m: map<int, Task>, items: seq<ReorderItem>, now: nat, a: int, b: int)
    requires a in m && b in m && a != b && m[a].status == m[b].status
    requires Listed(items, a) && Listed(items, b) && LastPosition(items, a) == LastPosition(items, b)
    ensures !Dense(Reordered(m, items, now), m[a].status)
  {
    var r := Reordered(m, items, now);
    ReorderedLastWins(m, items, now, a);
    ReorderedLastWins(m, items, now, b);
    assert r[a].position == r[b].position;
  }

  /**
    The batch is trusted: it makes a column dense when the caller supplies a
    renumbering of every row of that column onto distinct positions 0 .. n-1.
   */
  lemma ReorderRenumberingMakesDense(m: map<int, Task>, items: seq<ReorderItem>, now: nat, s: Status)
    requires forall k | k in Column(m, s) :: Listed(items, k) && 0 <= LastPosition(items, k) < |Column(m, s)|
    requires forall j, k | j in Column(m, s) && k in Column(m, s) && j != k ::
      LastPosition(items, j) != LastPosition(items, k)
    ensures Dense(Reordered(m, items, now), s)
  {
    var r := Reordered(m, items, now);
    assert Column(r, s) == Column(m, s);
    forall k | k in Column(m, s) ensures r[k].position == LastPosition(items, k) {
      ReorderedLastWins(m, items, now, k);
    }
  }
}
