/**
  GROUP BY and HAVING as the database executes them: one row per group that HAVING passes.
 */
module Grouping {
  import opened Conditions
  import opened Logic
  import opened Orders
  import opened Parser
  import opened Queries
  import opened Sql
  import opened Wrappers

  // ---------------------------------------------------------------- the groups

  /** The group of a row: its grouping columns under the collation, NULL together with NULL. */
  function GroupKey(e: Env, cols: seq<string>, r: Row): seq<Pos> {
    if cols == [] then [] else [ValuePos(e, Col(r, cols[0]))] + GroupKey(e, cols[1..], r)
  }

  /** The keys of the groups; without grouping columns all rows are one group, even if there are none. */
  function KeyList(e: Env, cols: seq<string>, rows: seq<Row>): seq<seq<Pos>> {
    if cols == [] then [[]] else Keys(e, cols, rows)
  }

  function Keys(e: Env, cols: seq<string>, rows: seq<Row>): seq<seq<Pos>> {
    if rows == [] then []
    else
      var key, rest := GroupKey(e, cols, rows[0]), Keys(e, cols, rows[1..]);
      if key in rest then rest else [key] + rest
  }

  function InGroup(e: Env, cols: seq<string>, key: seq<Pos>, rows: seq<Row>): seq<Row> {
    if rows == [] then []
    else (if GroupKey(e, cols, rows[0]) == key then [rows[0]] else []) + InGroup(e, cols, key, rows[1..])
  }

  /** The groups of HAVING, each as the row of its columns and aggregates. */
  function Passing(e: Env, cols: seq<string>, having: Option<Cond>, rows: seq<Row>, keys: seq<seq<Pos>>): seq<Row>
    decreases keys
  {
    if keys == [] then []
    else
      var r := e.summary(InGroup(e, cols, keys[0], rows));
      (if Holds(e, having, r) then [r] else []) + Passing(e, cols, having, rows, keys[1..])
  }

  /** What grouping makes of the filtered rows. Nothing is grouped without columns and without a HAVING
      that renders as something. */
  function Grouped(e: Env, cols: seq<string>, having: Option<Cond>, rows: seq<Row>): seq<Row> {
    if cols == [] && (having.None? || Vacuous(having.value)) then rows
    else Passing(e, cols, having, rows, KeyList(e, cols, rows))
  }

  function KeySet(e: Env, cols: seq<string>, rows: seq<Row>): set<seq<Pos>> {
    set r | r in rows :: GroupKey(e, cols, r)
  }

  lemma KeySetStep(e: Env, cols: seq<string>, rows: seq<Row>)
    requires rows != []
    ensures KeySet(e, cols, rows) == {GroupKey(e, cols, rows[0])} + KeySet(e, cols, rows[1..])
  {
    hide GroupKey;
    assert rows == [rows[0]] + rows[1..];
  }

  /** Every key of a row is listed, and listed once. */
  lemma {:induction false} KeysOnce(e: Env, cols: seq<string>, rows: seq<Row>)
    ensures forall i, j :: 0 <= i < j < |Keys(e, cols, rows)| ==> Keys(e, cols, rows)[i] != Keys(e, cols, rows)[j]
    ensures (set key | key in Keys(e, cols, rows)) == KeySet(e, cols, rows)
  {
    if rows != [] {
      hide GroupKey;
      hide KeySet;
      KeysOnce(e, cols, rows[1..]);
      KeySetStep(e, cols, rows);
      var key, rest := GroupKey(e, cols, rows[0]), Keys(e, cols, rows[1..]);
      assert key in rest <==> key in (set key | key in rest);
      assert (set x | x in [key] + rest) == {key} + set x | x in rest;
    } else {
      NoKeys(e, cols);
    }
  }

  lemma NoKeys(e: Env, cols: seq<string>)
    ensures KeySet(e, cols, []) == {} == set key | key in Keys(e, cols, [])
  {
  }

  lemma {:induction false} PassingAll(e: Env, cols: seq<string>, rows: seq<Row>, keys: seq<seq<Pos>>)
    ensures |Passing(e, cols, None, rows, keys)| == |keys|
    ensures forall i :: 0 <= i < |keys| ==>
      Passing(e, cols, None, rows, keys)[i] == e.summary(InGroup(e, cols, keys[i], rows))
    decreases keys
  {
    if keys != [] {
      hide InGroup;
      PassingAll(e, cols, rows, keys[1..]);
    }
  }

  /** Without HAVING there is exactly one row per distinct key among the filtered rows. */
  lemma OnePerGroup(e: Env, cols: seq<string>, rows: seq<Row>)
    requires cols != []
    ensures |Grouped(e, cols, None, rows)| == |KeySet(e, cols, rows)|
  {
    hide Passing;
    hide Keys;
    hide KeySet;
    KeysOnce(e, cols, rows);
    PassingAll(e, cols, rows, Keys(e, cols, rows));
    DistinctSize(Keys(e, cols, rows));
  }

  lemma {:induction false} DistinctSize<T>(s: seq<T>)
    requires forall i, j :: 0 <= i < j < |s| ==> s[i] != s[j]
    ensures |set x | x in s| == |s|
  {
    if s != [] {
      DistinctSize(s[1..]);
      assert s == [s[0]] + s[1..];
      assert s[0] !in s[1..];
      assert (set x | x in s) == {s[0]} + set x | x in s[1..];
    }
  }

  // ---------------------------------------------------------------- reading the clauses

  /** Column names separated by commas. */
  function ParseColumns(ts: seq<Token>): Parsed<seq<string>> {
    if ts == [] || !ts[0].Ident? then Fail
    else if |ts| > 1 && ts[1].Comma? then
      match ParseColumns(ts[2..])
      case Fail => Fail
      case Got(more, rest) => Got([ts[0].name] + more, rest)
    else Got([ts[0].name], ts[1..])
  }

  function ParseGroupBy(ts: seq<Token>): Parsed<seq<string>> {
    if ts == [] || !ts[0].GroupByWord? then Got([], ts) else ParseColumns(ts[1..])
  }

  function ParseHaving(ts: seq<Token>): Parsed<Option<Expr>> {
    if ts == [] || !ts[0].HavingWord? then Got(None, ts)
    else
      match ParseOr(ts[1..])
      case Fail => Fail
      case Got(x, rest) => Got(Some(x), rest)
  }

  /** What may follow a HAVING clause. */
  predicate EndsHaving(ts: seq<Token>) {
    ts == [] || ts[0].OrderByWord? || ts[0].LimitWord? || ts[0].OffsetWord? || ts[0].GroupsAlias?
  }

  lemma {:induction false} ColumnsReadBack(cols: seq<string>, rest: seq<Token>)
    requires cols != [] && (rest == [] || !rest[0].Comma?)
    ensures ParseColumns(ColumnsText(cols) + rest) == Got(cols, rest)
  {
    hide ParseColumns;
    if |cols| == 1 {
      LastColumn(cols[0], rest);
      assert cols == [cols[0]];
    } else {
      var head, more := [Ident(cols[0]), Comma], ColumnsText(cols[1..]);
      ColumnsReadBack(cols[1..], rest);
      hide ColumnsText;
      NextColumn(cols[0], more + rest);
      Assoc(head, more, rest);
      assert cols == [cols[0]] + cols[1..];
    }
  }

  lemma LastColumn(name: string, rest: seq<Token>)
    requires rest == [] || !rest[0].Comma?
    ensures ParseColumns([Ident(name)] + rest) == Got([name], rest)
  {
    assert ([Ident(name)] + rest)[1..] == rest;
  }

  lemma NextColumn(name: string, more: seq<Token>)
    ensures ParseColumns([Ident(name), Comma] + more) ==
      match ParseColumns(more)
      case Fail => Fail
      case Got(names, rest) => Got([name] + names, rest)
  {
    var ts := [Ident(name), Comma] + more;
    assert ts[0] == Ident(name) && ts[1] == Comma && ts[2..] == more;
  }

  lemma GroupByReadsBack(cols: seq<string>, rest: seq<Token>)
    requires EndsHaving(rest) || rest[0].HavingWord?
    ensures ParseGroupBy(GroupByText(cols) + rest) == Got(cols, rest)
  {
    hide ColumnsText;
    if cols == [] {
      assert [] + rest == rest;
    } else {
      ColumnsReadBack(cols, rest);
      Assoc([GroupByWord], ColumnsText(cols), rest);
      assert ([GroupByWord] + (ColumnsText(cols) + rest))[1..] == ColumnsText(cols) + rest;
    }
  }

  lemma HavingReadsBack(k: nat, having: Option<Cond>, rest: seq<Token>)
    requires CleanFilter(having) && EndsHaving(rest)
    ensures ParseHaving(HavingText(Numbered, k, having) + rest) == Got(WhereTree(k, having), rest)
    ensures var after := HavingText(Numbered, k, having) + rest; EndsHaving(after) || after[0].HavingWord?
  {
    hide CondText;
    hide Tree;
    hide ParseOr;
    if having.None? {
      assert [] + rest == rest;
    } else {
      BlankIffVacuous(Numbered, k, having.value);
      if Vacuous(having.value) {
        assert [] + rest == rest;
      } else {
        var t := CondText(Numbered, k, having.value);
        WhereReadsBack(k, having.value, rest);
        Assoc([HavingWord], t, rest);
        assert ([HavingWord] + (t + rest))[1..] == t + rest;
      }
    }
  }

  // ---------------------------------------------------------------- executing the clauses

  predicate Passes(e: Env, args: seq<Value>, having: Option<Expr>, r: Row) {
    having.None? || Meaning(e, args, having.value, r) == True
  }

  function PassingBy(e: Env, args: seq<Value>, cols: seq<string>, having: Option<Expr>, rows: seq<Row>,
      keys: seq<seq<Pos>>): seq<Row>
    decreases keys
  {
    if keys == [] then []
    else
      var r := e.summary(InGroup(e, cols, keys[0], rows));
      (if Passes(e, args, having, r) then [r] else []) + PassingBy(e, args, cols, having, rows, keys[1..])
  }

  function GroupedBy(e: Env, args: seq<Value>, cols: seq<string>, having: Option<Expr>, rows: seq<Row>): seq<Row> {
    if cols == [] && having.None? then rows
    else PassingBy(e, args, cols, having, rows, KeyList(e, cols, rows))
  }

  /** HAVING read back passes the groups that the condition passes. */
  lemma GroupedByText(e: Env, args: seq<Value>, k: nat, cols: seq<string>, having: Option<Cond>, rows: seq<Row>)
    requires CleanFilter(having) && Bound(args, k, FilterArgs(having))
    ensures GroupedBy(e, args, cols, WhereTree(k, having), rows) == Grouped(e, cols, having, rows)
  {
    hide Tree;
    hide KeyList;
    hide Passing;
    hide PassingBy;
    hide Bound;
    PassingByText(e, args, k, cols, having, rows, KeyList(e, cols, rows));
  }

  lemma {:induction false} PassingByText(e: Env, args: seq<Value>, k: nat, cols: seq<string>, having: Option<Cond>,
      rows: seq<Row>, keys: seq<seq<Pos>>)
    requires CleanFilter(having) && Bound(args, k, FilterArgs(having))
    ensures PassingBy(e, args, cols, WhereTree(k, having), rows, keys) == Passing(e, cols, having, rows, keys)
    decreases keys
  {
    if keys != [] {
      hide Meaning;
      hide Eval;
      hide Tree;
      hide InGroup;
      PassingByText(e, args, k, cols, having, rows, keys[1..]);
      if having.Some? && !Vacuous(having.value) {
        TreeMeans(e, args, k, having.value, e.summary(InGroup(e, cols, keys[0], rows)));
      }
    }
  }
}
