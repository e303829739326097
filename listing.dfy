/**
  The read side of the server: getTasks lists every row ordered by status (in enum
  order) and then by ascending position; getTaskById is in module Store.
 */
module Listing {
  import opened Schema

  /** `ORDER BY status ASC, position ASC`: may `a` come before `b`? */
  predicate ListedBefore(a: Task, b: Task)
  {
    Rank(a.status) < Rank(b.status) || (a.status == b.status && a.position <= b.position)
  }

  predicate InListOrder(r: seq<Task>)
  {
    forall i, j | 0 <= i < j < |r| :: ListedBefore(r[i], r[j])
  }

  /** In an ordered listing the first row may come before every row of the listing. */
  lemma HeadListedFirst(r: seq<Task>)
    requires InListOrder(r) && r != []
    ensures forall x | x in r[1..] :: ListedBefore(r[0], x)
  {
  }

  /** A row that may come before every row of an ordered listing may go in front of it. */
  lemma ConsListed(x: Task, r: seq<Task>)
    requires InListOrder(r) && forall y | y in r :: ListedBefore(x, y)
    ensures InListOrder([x] + r)
  {
  }

  /** Places `t` into an ordered listing. */
  function InsertListed(r: seq<Task>, t: Task): (r': seq<Task>)
    requires InListOrder(r)
    ensures InListOrder(r')
    ensures forall x | x in r' :: x in r || x == t
    ensures multiset(r') == multiset(r) + multiset{t}
  {
    if r == [] then [t]
    else if ListedBefore(t, r[0]) then
      HeadListedFirst(r);
      assert r == [r[0]] + r[1..];
      ConsListed(t, r);
      [t] + r
    else
      var rest := InsertListed(r[1..], t);
      HeadListedFirst(r);
      ConsListed(r[0], rest);
      assert r == [r[0]] + r[1..];
      [r[0]] + rest
  }

  predicate IsLeast(k: int, ks: set<int>)
  {
    k in ks && forall j | j in ks :: k <= j
  }

  lemma {:induction false} LeastExists(ks: set<int>)
    requires ks != {}
    ensures exists k :: IsLeast(k, ks)
    decreases ks
  {
    if forall j :: j !in ks { assert false; }
    var x :| x in ks;
    var rest := ks - {x};
    if rest == {} {
      assert IsLeast(x, ks) by {
        forall j | j in ks ensures x <= j {
          assert j !in rest;
        }
      }
    } else {
      LeastExists(rest);
      var k :| IsLeast(k, rest);
      var least := if x < k then x else k;
      assert IsLeast(least, ks) by {
        forall j | j in ks ensures least <= j {
          if j != x { assert j in rest; }
        }
      }
    }
  }

  /**
    The rows of `m` stored under the keys `ks`, in listing order, each exactly once.
    Rows that tie on (status, position) come out in an order the database leaves
    unspecified; here it is the order of their ids.
   */
  function SortedRows(m: map<int, Task>, ks: set<int>): (r: seq<Task>)
    requires ks <= m.Keys && WellKeyed(m)
    ensures InListOrder(r)
    ensures |r| == |ks|
    ensures forall t | t in r :: t.id in ks && m[t.id] == t
    ensures forall k | k in ks :: multiset(r)[m[k]] == 1
    decreases ks
  {
    if ks == {} then []
    else
      LeastExists(ks);
      var k :| IsLeast(k, ks);
      var rest := SortedRows(m, ks - {k});
      var r := InsertListed(rest, m[k]);
      assert m[k] !in rest;
      assert forall t | t in r :: t in rest || t == m[k] by {
        forall t | t in r ensures t in rest || t == m[k] {
          assert t in multiset(r);
        }
      }
      r
  }
}
