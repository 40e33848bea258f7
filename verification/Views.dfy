/**
  The abstract database's answer to "filter, then order": sorted views of a table, and how a
  boundary cuts one.
 */
module Views {
  import opened Conditions
  import opened Dialects
  import opened Keyset
  import opened Logic
  import opened Orders
  import opened Wrappers
  import Arrangements

  /** The rows a filter keeps, in table order. */
  function Kept(e: Env, c: Option<Cond>, table: seq<Row>): seq<Row> {
    if table == [] then []
    else if Holds(e, c, table[0]) then [table[0]] + Kept(e, c, table[1..])
    else Kept(e, c, table[1..])
  }

  function Insert(e: Env, d: Dialect, order: seq<OrderTerm>, x: Row, s: seq<Row>): seq<Row> {
    if s == [] then [x]
    else if RowBefore(e, d, order, s[0], x) then [s[0]] + Insert(e, d, order, x, s[1..])
    else [x] + s
  }

  function SortRows(e: Env, d: Dialect, order: seq<OrderTerm>, rows: seq<Row>): seq<Row> {
    if rows == [] then [] else Insert(e, d, order, rows[0], SortRows(e, d, order, rows[1..]))
  }

  function View(e: Env, d: Dialect, order: seq<OrderTerm>, c: Option<Cond>, table: seq<Row>): seq<Row> {
    SortRows(e, d, order, Kept(e, c, table))
  }

  /** No row sorts before an earlier one. */
  ghost predicate InOrder(e: Env, d: Dialect, order: seq<OrderTerm>, s: seq<Row>) {
    forall i, j :: 0 <= i < j < |s| ==> !RowBefore(e, d, order, s[j], s[i])
  }

  /** Every row sorts strictly before the later ones. */
  ghost predicate Ascending(e: Env, d: Dialect, order: seq<OrderTerm>, s: seq<Row>) {
    forall i, j :: 0 <= i < j < |s| ==> RowBefore(e, d, order, s[i], s[j])
  }

  /** The documented contract: the ordering ends in a unique column. */
  ghost predicate UniqueKeys(e: Env, order: seq<OrderTerm>, rows: seq<Row>) {
    forall i, j :: 0 <= i < j < |rows| ==> RowPos(e, order, rows[i]) != RowPos(e, order, rows[j])
  }

  // ---------------------------------------------------------------- laws of the row order

  lemma RowBeforeTransitive(e: Env, d: Dialect, order: seq<OrderTerm>, r: Row, s: Row, t: Row)
    requires RowBefore(e, d, order, r, s) && RowBefore(e, d, order, s, t)
    ensures RowBefore(e, d, order, r, t)
  {
    BeforeTransitive(d, Dirs(order), RowPos(e, order, r), RowPos(e, order, s), RowPos(e, order, t));
  }

  lemma RowTrichotomy(e: Env, d: Dialect, order: seq<OrderTerm>, r: Row, s: Row)
    ensures RowBefore(e, d, order, r, s) || RowBefore(e, d, order, s, r) || RowPos(e, order, r) == RowPos(e, order, s)
    ensures !(RowBefore(e, d, order, r, s) && RowBefore(e, d, order, s, r))
    ensures RowPos(e, order, r) == RowPos(e, order, s) ==> !RowBefore(e, d, order, r, s)
  {
    BeforeTrichotomy(d, Dirs(order), RowPos(e, order, r), RowPos(e, order, s));
  }

  lemma NotBeforeTransitive(e: Env, d: Dialect, order: seq<OrderTerm>, r: Row, s: Row, t: Row)
    requires !RowBefore(e, d, order, r, s) && !RowBefore(e, d, order, s, t)
    ensures !RowBefore(e, d, order, r, t)
  {
    RowTrichotomy(e, d, order, r, s);
    if RowBefore(e, d, order, s, r) && RowBefore(e, d, order, r, t) {
      RowBeforeTransitive(e, d, order, s, r, t);
    }
  }

  // ---------------------------------------------------------------- sorting

  lemma {:induction false} KeptMembers(e: Env, c: Option<Cond>, table: seq<Row>)
    ensures forall r :: r in Kept(e, c, table) <==> r in table && Holds(e, c, r)
  {
    if table != [] {
      hide Holds;
      KeptMembers(e, c, table[1..]);
      assert table == [table[0]] + table[1..];
    }
  }

  lemma {:induction false} InsertMembers(e: Env, d: Dialect, order: seq<OrderTerm>, x: Row, s: seq<Row>)
    ensures multiset(Insert(e, d, order, x, s)) == multiset{x} + multiset(s)
    ensures forall r :: r in Insert(e, d, order, x, s) <==> r == x || r in s
  {
    hide RowBefore;
    if s != [] {
      assert s == [s[0]] + s[1..];
      InsertMembers(e, d, order, x, s[1..]);
    }
  }

  /** Sorting neither loses nor invents a row. */
  lemma {:induction false} SortMembers(e: Env, d: Dialect, order: seq<OrderTerm>, rows: seq<Row>)
    ensures multiset(SortRows(e, d, order, rows)) == multiset(rows)
    ensures |SortRows(e, d, order, rows)| == |rows|
    ensures forall r :: r in SortRows(e, d, order, rows) <==> r in rows
  {
    if rows != [] {
      assert rows == [rows[0]] + rows[1..];
      SortMembers(e, d, order, rows[1..]);
      InsertMembers(e, d, order, rows[0], SortRows(e, d, order, rows[1..]));
      hide SortRows;
      SameSize(SortRows(e, d, order, rows), rows);
    }
  }

  lemma SameSize(a: seq<Row>, b: seq<Row>)
    requires multiset(a) == multiset(b)
    ensures |a| == |b|
    ensures forall r :: r in a <==> r in b
  {
    assert |a| == |multiset(a)| && |b| == |multiset(b)|;
    assert forall r :: (r in a <==> r in multiset(a)) && (r in b <==> r in multiset(b));
  }

  lemma {:induction false} InsertInOrder(e: Env, d: Dialect, order: seq<OrderTerm>, x: Row, s: seq<Row>)
    requires InOrder(e, d, order, s)
    ensures InOrder(e, d, order, Insert(e, d, order, x, s))
  {
    hide RowBefore;
    if s != [] {
      RowTrichotomy(e, d, order, s[0], x);
      if RowBefore(e, d, order, s[0], x) {
        var rest := Insert(e, d, order, x, s[1..]);
        InsertInOrder(e, d, order, x, s[1..]);
        InsertMembers(e, d, order, x, s[1..]);
        hide Insert;
        forall y | y in rest
          ensures !RowBefore(e, d, order, y, s[0])
        {
          if y != x {
            var i :| 1 <= i < |s| && s[i] == y;
          }
        }
        ConsInOrder(e, d, order, s[0], rest);
      } else {
        forall y | y in s
          ensures !RowBefore(e, d, order, y, x)
        {
          var i :| 0 <= i < |s| && s[i] == y;
          if i > 0 {
            NotBeforeTransitive(e, d, order, y, s[0], x);
          }
        }
        ConsInOrder(e, d, order, x, s);
      }
    }
  }

  lemma ConsInOrder(e: Env, d: Dialect, order: seq<OrderTerm>, x: Row, s: seq<Row>)
    requires InOrder(e, d, order, s) && forall y :: y in s ==> !RowBefore(e, d, order, y, x)
    ensures InOrder(e, d, order, [x] + s)
  {
    hide RowBefore;
  }

  /** ORDER BY sorts. */
  lemma {:induction false} SortInOrder(e: Env, d: Dialect, order: seq<OrderTerm>, rows: seq<Row>)
    ensures InOrder(e, d, order, SortRows(e, d, order, rows))
  {
    if rows != [] {
      SortInOrder(e, d, order, rows[1..]);
      InsertInOrder(e, d, order, rows[0], SortRows(e, d, order, rows[1..]));
    }
  }

  lemma {:induction false} InsertAscends(e: Env, d: Dialect, order: seq<OrderTerm>, x: Row, s: seq<Row>)
    requires Ascending(e, d, order, s)
    requires forall y :: y in s ==> RowPos(e, order, y) != RowPos(e, order, x)
    ensures Ascending(e, d, order, Insert(e, d, order, x, s))
  {
    hide RowBefore;
    if s != [] {
      RowTrichotomy(e, d, order, s[0], x);
      if RowBefore(e, d, order, s[0], x) {
        var rest := Insert(e, d, order, x, s[1..]);
        InsertAscends(e, d, order, x, s[1..]);
        InsertMembers(e, d, order, x, s[1..]);
        hide Insert;
        forall y | y in rest
          ensures RowBefore(e, d, order, s[0], y)
        {
          if y != x {
            var i :| 1 <= i < |s| && s[i] == y;
          }
        }
        ConsAscends(e, d, order, s[0], rest);
      } else {
        forall y | y in s
          ensures RowBefore(e, d, order, x, y)
        {
          var i :| 0 <= i < |s| && s[i] == y;
          if i > 0 {
            RowBeforeTransitive(e, d, order, x, s[0], y);
          }
        }
        ConsAscends(e, d, order, x, s);
      }
    }
  }

  lemma ConsAscends(e: Env, d: Dialect, order: seq<OrderTerm>, x: Row, s: seq<Row>)
    requires Ascending(e, d, order, s) && forall y :: y in s ==> RowBefore(e, d, order, x, y)
    ensures Ascending(e, d, order, [x] + s)
  {
    hide RowBefore;
  }

  /** With unique keys the sorted rows are strictly increasing. */
  lemma {:induction false} SortAscends(e: Env, d: Dialect, order: seq<OrderTerm>, rows: seq<Row>)
    requires UniqueKeys(e, order, rows)
    ensures Ascending(e, d, order, SortRows(e, d, order, rows))
  {
    if rows != [] {
      hide RowPos;
      SortAscends(e, d, order, rows[1..]);
      SortMembers(e, d, order, rows[1..]);
      InsertAscends(e, d, order, rows[0], SortRows(e, d, order, rows[1..]));
    }
  }

  /** There is only one strictly increasing arrangement of a set of rows, so it does not matter how
      the database sorts. */
  lemma ArrangementUnique(e: Env, d: Dialect, order: seq<OrderTerm>, s: seq<Row>, t: seq<Row>)
    requires Ascending(e, d, order, s) && Ascending(e, d, order, t)
    requires forall r :: r in s <==> r in t
    ensures s == t
  {
    hide RowBefore;
    var less := (a, b) => RowBefore(e, d, order, a, b);
    forall a, b
      ensures less(a, b) ==> !less(b, a)
    {
      RowTrichotomy(e, d, order, a, b);
    }
    Arrangements.Unique(less, s, t);
  }

  // ---------------------------------------------------------------- cutting a view at a boundary

  /** The row belongs to the leading part: strictly before the boundary when paging backward, not
      after it when paging forward. */
  predicate Leads(e: Env, d: Dialect, order: seq<OrderTerm>, b: seq<Pos>, before: bool, r: Row)
    requires |b| == |order|
  {
    if before then Past(e, d, order, b, true, r) else !Past(e, d, order, b, false, r)
  }

  function Cut(e: Env, d: Dialect, order: seq<OrderTerm>, b: seq<Pos>, before: bool, s: seq<Row>): (n: nat)
    requires |b| == |order|
    ensures n <= |s|
  {
    if s == [] || !Leads(e, d, order, b, before, s[0]) then 0 else 1 + Cut(e, d, order, b, before, s[1..])
  }

  lemma LeadsDownward(e: Env, d: Dialect, order: seq<OrderTerm>, b: seq<Pos>, before: bool, r: Row, s: Row)
    requires |b| == |order|
    requires RowBefore(e, d, order, r, s) && Leads(e, d, order, b, before, s)
    ensures Leads(e, d, order, b, before, r)
  {
    var p, q := RowPos(e, order, r), RowPos(e, order, s);
    if before {
      BeforeTransitive(d, Dirs(order), p, q, b);
    } else if Past(e, d, order, b, false, r) {
      BeforeTransitive(d, Dirs(order), b, p, q);
    }
  }

  /** The cut separates the leading rows from the others. */
  lemma {:induction false} CutSplits(e: Env, d: Dialect, order: seq<OrderTerm>, b: seq<Pos>, before: bool, s: seq<Row>)
    requires |b| == |order| && Ascending(e, d, order, s)
    ensures forall i :: 0 <= i < |s| ==> (Leads(e, d, order, b, before, s[i]) <==> i < Cut(e, d, order, b, before, s))
  {
    hide Leads;
    hide RowBefore;
    if s != [] {
      if Leads(e, d, order, b, before, s[0]) {
        CutSplits(e, d, order, b, before, s[1..]);
        assert forall i :: 0 < i < |s| ==> s[i] == s[1..][i - 1];
      } else {
        forall i | 0 <= i < |s|
          ensures !Leads(e, d, order, b, before, s[i])
        {
          if i > 0 && Leads(e, d, order, b, before, s[i]) {
            LeadsDownward(e, d, order, b, before, s[0], s[i]);
          }
        }
      }
    }
  }
}
