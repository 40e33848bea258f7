/**
  The Query object: chained setters that update its fields, and the methods that write its
  statements clause by clause into a text builder and an argument list.
 */
module Fluent {
  import opened Conditions
  import opened Cursors
  import opened Dialects
  import opened Logic
  import opened Orders
  import opened Queries
  import opened Sql
  import opened Wrappers
  import Text

  // ---------------------------------------------------------------- what loops still have to write

  ghost function ColumnsTail(cols: seq<string>, first: bool): seq<Token> {
    Pending(Comma, ColumnsText(cols), cols == [], first)
  }

  lemma ColumnsSteps(cols: seq<string>, first: bool, text: seq<Token>)
    ensures cols == [] ==> text + ColumnsTail(cols, first) == text
    ensures first ==> ColumnsTail(cols, first) == ColumnsText(cols)
    ensures cols != [] ==> (
      text + ColumnsTail(cols, first) ==
      (if first then text else text + [Comma]) + [Ident(cols[0])] + ColumnsTail(cols[1..], false))
  {
    PendingEnds(Comma, ColumnsText(cols), text);
    if cols != [] {
      assert |cols| == 1 ==> [Ident(cols[0])] + [] == [Ident(cols[0])];
      PendingSteps(Comma, ColumnsText(cols), [Ident(cols[0])], ColumnsText(cols[1..]), |cols| == 1, first, text);
    }
  }

  ghost function TermsTail(m: Marker, d: Dialect, k: nat, order: seq<OrderTerm>, first: bool): seq<Token> {
    Pending(Comma, TermsText(m, d, k, order), order == [], first)
  }

  lemma TermsSteps(m: Marker, d: Dialect, k: nat, order: seq<OrderTerm>, first: bool, text: seq<Token>)
    ensures order == [] ==> text + TermsTail(m, d, k, order, first) == text
    ensures first ==> TermsTail(m, d, k, order, first) == TermsText(m, d, k, order)
    ensures order != [] ==> (
      text + TermsTail(m, d, k, order, first) ==
      (if first then text else text + [Comma]) + TermText(m, d, k, order[0]) +
      TermsTail(m, d, k + |TermArgs(order[0])|, order[1..], false))
  {
    hide TermText;
    hide TermArgs;
    PendingEnds(Comma, TermsText(m, d, k, order), text);
    if order != [] {
      var t, next := TermText(m, d, k, order[0]), k + |TermArgs(order[0])|;
      if |order| == 1 {
        assert t + [] == t;
      } else {
        Assoc(t, [Comma], TermsText(m, d, next, order[1..]));
      }
      PendingSteps(Comma, TermsText(m, d, k, order), t, TermsText(m, d, next, order[1..]), |order| == 1, first, text);
    }
  }

  /** Text and arguments written so far, with those of the terms from `i` on, are the whole clause. */
  ghost predicate Remaining(m: Marker, d: Dialect, k: nat, order: seq<OrderTerm>, i: nat, text: seq<Token>,
      args: seq<Value>, allText: seq<Token>)
    requires i <= |order|
  {
    text + TermsTail(m, d, k, order[i..], i == 0) == allText && args + OrderArgs(order[i..]) == OrderArgs(order)
  }

  lemma RemainingStarts(m: Marker, d: Dialect, k: nat, order: seq<OrderTerm>, text: seq<Token>)
    ensures Remaining(m, d, k, order, 0, text, [], text + TermsText(m, d, k, order))
  {
    hide TermsText;
    hide TermsTail;
    hide OrderArgs;
    assert order[0..] == order;
    TermsSteps(m, d, k, order, true, text);
    assert [] + OrderArgs(order) == OrderArgs(order);
  }

  lemma RemainingSteps(m: Marker, d: Dialect, k: nat, order: seq<OrderTerm>, i: nat, text: seq<Token>,
      args: seq<Value>, allText: seq<Token>)
    requires i < |order| && Remaining(m, d, k, order, i, text, args, allText)
    ensures Remaining(m, d, k + |TermArgs(order[i])|, order, i + 1,
      (if i > 0 then text + [Comma] else text) + TermText(m, d, k, order[i]), args + TermArgs(order[i]), allText)
  {
    hide TermText;
    hide TermArgs;
    hide TermsTail;
    var rest := order[i..];
    assert rest[0] == order[i] && rest[1..] == order[i + 1..];
    TermsSteps(m, d, k, rest, i == 0, text);
    Assoc(args, TermArgs(rest[0]), OrderArgs(rest[1..]));
  }

  lemma RemainingEnds(m: Marker, d: Dialect, k: nat, order: seq<OrderTerm>, text: seq<Token>, args: seq<Value>,
      allText: seq<Token>)
    requires Remaining(m, d, k, order, |order|, text, args, allText)
    ensures text == allText && args == OrderArgs(order)
  {
    assert order[|order|..] == [];
    assert text + [] == text && args + [] == args;
  }

  ghost function AssignTail(m: Marker, k: nat, cols: seq<string>, first: bool): seq<Token> {
    Pending(Comma, AssignText(m, k, cols), cols == [], first)
  }

  lemma AssignSteps(m: Marker, k: nat, cols: seq<string>, first: bool, text: seq<Token>)
    ensures cols == [] ==> text + AssignTail(m, k, cols, first) == text
    ensures first ==> AssignTail(m, k, cols, first) == AssignText(m, k, cols)
    ensures cols != [] ==> (
      text + AssignTail(m, k, cols, first) ==
      (if first then text else text + [Comma]) + [Ident(cols[0]), Oper(OpEq), Place(m, k + 1)] +
      AssignTail(m, k + 1, cols[1..], false))
  {
    PendingEnds(Comma, AssignText(m, k, cols), text);
    if cols != [] {
      var one := [Ident(cols[0]), Oper(OpEq), Place(m, k + 1)];
      if |cols| == 1 {
        assert one + [] == one;
      } else {
        Assoc(one, [Comma], AssignText(m, k + 1, cols[1..]));
        assert [Ident(cols[0]), Oper(OpEq), Place(m, k + 1), Comma] == one + [Comma];
      }
      PendingSteps(Comma, AssignText(m, k, cols), one, AssignText(m, k + 1, cols[1..]), |cols| == 1, first, text);
    }
  }

  // ---------------------------------------------------------------- assignments of an UPDATE

  function Values(set_: map<string, Value>, cols: seq<string>): (vs: seq<Value>)
    requires forall c :: c in cols ==> c in set_
    ensures |vs| == |cols|
    ensures forall i :: 0 <= i < |cols| ==> vs[i] == set_[cols[i]]
  {
    if cols == [] then [] else [set_[cols[0]]] + Values(set_, cols[1..])
  }

  /** `keys` lists the keys of the assignment map, each once, in the order the runtime chose. */
  ghost predicate Enumerates(keys: seq<string>, set_: map<string, Value>) {
    (forall c :: c in keys <==> c in set_) && Text.Distinct(keys)
  }

  predicate SingleTable(s: Spec) {
    s.from.None? || (s.from.value.alias == "" && s.from.value.joins == 0)
  }

  /** What Delete sends to the database, or why it refuses. */
  function DeleteOutcome(s: Spec): Result<Statement, Failure> {
    var m, c := MarkerOf(s.dialect), EffectiveCond(s);
    if s.err.Some? then Err(s.err.value)
    else if !SingleTable(s) then Err(NotSingleTable)
    else if FilterText(m, 0, c) == [] && !s.unfiltered then Err(NoFilter)
    else Ok(Statement(DeleteText(s, FilterText(m, 0, c)), FilterArgs(c)))
  }

  /** What Update sends to the database, or why it refuses. */
  function UpdateOutcome(s: Spec, set_: map<string, Value>, keys: seq<string>): Result<Statement, Failure>
    requires forall c :: c in keys ==> c in set_
  {
    var m, c, cols := MarkerOf(s.dialect), EffectiveCond(s), Text.SortStrings(keys);
    if s.err.Some? then Err(s.err.value)
    else if !SingleTable(s) then Err(NotSingleTable)
    else if keys == [] then Err(NothingToSet)
    else if FilterText(m, 0, c) == [] && !s.unfiltered then Err(NoFilter)
    else Ok(Statement(UpdateText(m, s, cols, FilterText(m, |cols|, c)), Values(set_, cols) + FilterArgs(c)))
  }

  // ---------------------------------------------------------------- the object

  class Query {
    var from: Option<SourceSpec>
    var columns: seq<string>
    var cond: Option<Cond>
    var groupBy: seq<string>
    var having: Option<Cond>
    var order: seq<OrderTerm>
    var paging: PagingParams
    var seek: Option<SeekState>
    var dialect: Dialect
    var unfiltered: bool
    var softDeleteCol: string
    var softScope: SoftScope
    var err: Option<Failure>

    function State(): Spec
      reads this
    {
      Spec(from, columns, cond, groupBy, having, order, paging, seek, dialect,
        unfiltered, softDeleteCol, softScope, err)
    }

    constructor From(table: string)
      ensures State() == Spec(Some(SourceSpec(table, "", 0)), [], None, [], None, [],
        PagingParams(None, None, None, None, false), None, Postgres, false, "", ScopeActive, None)
    {
      from, columns, cond, groupBy, having, order := Some(SourceSpec(table, "", 0)), [], None, [], None, [];
      paging, seek, dialect, unfiltered := PagingParams(None, None, None, None, false), None, Postgres, false;
      softDeleteCol, softScope, err := "", ScopeActive, None;
    }

    // ------------------------------------------------ setters

    method Filter(c: Option<Cond>)
      modifies this
      ensures State() == old(State()).(cond := c)
    {
      cond := c;
    }

    method OrderBy(col: string)
      modifies this
      ensures State() == old(State()).(order := old(order) + [OrderTerm(col, false, NullsDefault, None)])
    {
      order := order + [OrderTerm(col, false, NullsDefault, None)];
    }

    method OrderByDesc(col: string)
      modifies this
      ensures State() == old(State()).(order := old(order) + [OrderTerm(col, true, NullsDefault, None)])
    {
      order := order + [OrderTerm(col, true, NullsDefault, None)];
    }

    method OrderByNulls(col: string, desc: bool, first: bool)
      modifies this
      ensures State() == old(State()).(order := old(order) +
        [OrderTerm(col, desc, if first then NullsFirst else NullsLast, None)])
    {
      var pos := NullsLast;
      if first {
        pos := NullsFirst;
      }
      order := order + [OrderTerm(col, desc, pos, None)];
    }

    /** Relevance terms declare no null placement. */
    method OrderByRelevance(col: string, query: string)
      modifies this
      ensures State() == old(State()).(order := old(order) +
        [OrderTerm(col, true, NullsDefault, Some(Rank(query, "english")))])
      ensures old(PlainRanks(order)) ==> PlainRanks(order)
    {
      PlainRanksAppend(order, OrderTerm(col, true, NullsDefault, Some(Rank(query, "english"))));
      order := order + [OrderTerm(col, true, NullsDefault, Some(Rank(query, "english")))];
    }

    method GroupBy(cols: seq<string>)
      modifies this
      ensures State() == old(State()).(groupBy := old(groupBy) + cols)
    {
      groupBy := groupBy + cols;
    }

    method Having(c: Option<Cond>)
      modifies this
      ensures State() == old(State()).(having := c)
    {
      having := c;
    }

    method Page(p: PagingParams)
      modifies this
      ensures State() == old(State()).(paging := p)
    {
      paging := p;
    }

    method On(d: Dialect)
      modifies this
      ensures State() == old(State()).(dialect := d)
    {
      dialect := d;
    }

    method SoftDelete(col: string)
      modifies this
      ensures State() == old(State()).(softDeleteCol := col, softScope := ScopeActive)
      ensures forall r :: Admits(State(), r) <==> col == "" || Col(r, col).Null?
    {
      softDeleteCol := col;
      softScope := ScopeActive;
    }

    method WithDeleted()
      modifies this
      ensures State() == old(State()).(softScope := ScopeWithDeleted)
      ensures forall r :: Admits(State(), r)
    {
      softScope := ScopeWithDeleted;
    }

    method OnlyDeleted()
      modifies this
      ensures State() == old(State()).(softScope := ScopeOnlyDeleted)
      ensures forall r :: Admits(State(), r) <==> softDeleteCol == "" || !Col(r, softDeleteCol).Null?
    {
      softScope := ScopeOnlyDeleted;
    }

    method Unfiltered()
      modifies this
      ensures State() == old(State()).(unfiltered := true)
    {
      unfiltered := true;
    }

    /** Both cursors at once is an error that is kept for later; otherwise Before pages backward. */
    method Seek(p: SeekParams)
      modifies this
      ensures State() ==
        if !p.after.NoCursor? && !p.before.NoCursor? then old(State()).(err := Some(SeekBothWays))
        else
          var cursor := if p.before.NoCursor? then p.after else p.before;
          old(State()).(seek := Some(SeekState(cursor, !p.before.NoCursor?, p.size, p.includeTotal)))
    {
      if !p.after.NoCursor? && !p.before.NoCursor? {
        err := Some(SeekBothWays);
        return;
      }
      var s := SeekState(NoCursor, false, p.size, p.includeTotal);
      if !p.before.NoCursor? {
        s := s.(cursor := p.before, before := true);
      } else {
        s := s.(cursor := p.after);
      }
      seek := Some(s);
    }

    // ------------------------------------------------ clauses

    method WriteProjection(sb: TextBuilder)
      modifies sb
      ensures sb.ts == old(sb.ts) + ProjectionText(State())
    {
      if |columns| > 0 {
        sb.ts := sb.ts + [Projection(columns, "")];
      } else if from.Some? && from.value.alias != "" {
        sb.ts := sb.ts + [Projection([], from.value.alias)];
      } else {
        sb.ts := sb.ts + [Projection([], "")];
      }
    }

    method WriteFrom(sb: TextBuilder)
      modifies sb
      ensures sb.ts == old(sb.ts) + FromText(State())
    {
      sb.ts := sb.ts + [FromWord, Source(if from.None? then "" else from.value.text)];
    }

    method WriteWhere(sb: TextBuilder, where: seq<Token>)
      modifies sb
      ensures sb.ts == old(sb.ts) + WhereText(where)
    {
      if where != [] {
        sb.ts := sb.ts + [WhereWord];
        sb.ts := sb.ts + where;
      }
    }

    /** GROUP BY and HAVING after the WHERE clause; HAVING's placeholders follow the WHERE arguments. */
    method WriteGroupHaving(sb: TextBuilder, whereArgs: seq<Value>) returns (args: seq<Value>)
      modifies sb
      ensures sb.ts == old(sb.ts) + (GroupByText(groupBy) + HavingText(MarkerOf(dialect), |whereArgs|, having))
      ensures args == whereArgs + FilterArgs(having)
    {
      ghost var start := sb.ts;
      hide ColumnsText;
      hide ColumnsTail;
      if |groupBy| > 0 {
        sb.ts := sb.ts + [GroupByWord];
        ghost var allText := sb.ts + ColumnsText(groupBy);
        ColumnsSteps(groupBy, true, sb.ts);
        for i := 0 to |groupBy|
          invariant sb.ts + ColumnsTail(groupBy[i..], i == 0) == allText
        {
          ColumnsSteps(groupBy[i..], i == 0, sb.ts);
          assert groupBy[i..][1..] == groupBy[i + 1..];
          if i > 0 {
            sb.ts := sb.ts + [Comma];
          }
          sb.ts := sb.ts + [Ident(groupBy[i])];
        }
        ColumnsSteps([], false, sb.ts);
        Assoc(start, [GroupByWord], ColumnsText(groupBy));
      }
      assert sb.ts == start + GroupByText(groupBy);
      hide GroupByText;
      HavingBlank(MarkerOf(dialect), |whereArgs|, having);
      hide FilterText;
      hide FilterArgs;
      if having.None? {
        return whereArgs;
      }
      var hs, ha := BuildAt(having, MarkerOf(dialect), |whereArgs|);
      if hs == [] {
        return whereArgs;
      }
      sb.ts := sb.ts + [HavingWord];
      sb.ts := sb.ts + hs;
      Assoc(start + GroupByText(groupBy), [HavingWord], hs);
      Assoc(start, GroupByText(groupBy), [HavingWord] + hs);
      args := whereArgs + ha;
    }

    /** One term: a relevance expression over its bound query, or a column with its direction. */
    method WriteTerm(sb: TextBuilder, t: OrderTerm, n: nat) returns (args: seq<Value>)
      modifies sb
      ensures sb.ts == old(sb.ts) + TermText(MarkerOf(dialect), dialect, n, t)
      ensures args == TermArgs(t)
    {
      if t.rank.Some? {
        ghost var start := sb.ts;
        var expr :=
          if SupportsRelevance(dialect) then
            [RankOpen(t.col, t.rank.value.config), Place(MarkerOf(dialect), n + 1), RankClose]
          else [Ident(t.col)];
        sb.ts := sb.ts + expr;
        if t.desc {
          sb.ts := sb.ts + [DescWord];
        }
        Assoc(start, expr, if t.desc then [DescWord] else []);
        return [Str(t.rank.value.query)];
      }
      sb.ts := sb.ts + OrderClause(dialect, t.col, t.desc, t.nulls);
      args := [];
    }

    /** ORDER BY; a relevance term binds its query, numbered after `startN` earlier arguments. */
    method WriteOrder(sb: TextBuilder, terms: seq<OrderTerm>, startN: nat) returns (args: seq<Value>)
      modifies sb
      ensures sb.ts == old(sb.ts) + OrderText(MarkerOf(dialect), dialect, startN, terms)
      ensures args == OrderArgs(terms)
    {
      args := [];
      if |terms| == 0 {
        return;
      }
      hide TermsText;
      hide OrderArgs;
      ghost var start := sb.ts;
      sb.ts := sb.ts + [OrderByWord];
      args := WriteTerms(sb, terms, startN);
      Assoc(start, [OrderByWord], TermsText(MarkerOf(dialect), dialect, startN, terms));
    }

    method WriteTerms(sb: TextBuilder, terms: seq<OrderTerm>, startN: nat) returns (args: seq<Value>)
      modifies sb
      ensures sb.ts == old(sb.ts) + TermsText(MarkerOf(dialect), dialect, startN, terms)
      ensures args == OrderArgs(terms)
    {
      hide TermsText;
      hide TermText;
      hide TermArgs;
      hide OrderArgs;
      hide Remaining;
      hide MarkerOf;
      var m := MarkerOf(dialect);
      ghost var allText := sb.ts + TermsText(m, dialect, startN, terms);
      var n: nat := startN;
      args := [];
      RemainingStarts(m, dialect, n, terms, sb.ts);
      for i := 0 to |terms|
        invariant n == startN + |args|
        invariant Remaining(m, dialect, n, terms, i, sb.ts, args, allText)
      {
        RemainingSteps(m, dialect, n, terms, i, sb.ts, args, allText);
        if i > 0 {
          sb.ts := sb.ts + [Comma];
        }
        var bound := WriteTerm(sb, terms[i], n);
        n := n + |bound|;
        args := args + bound;
      }
      RemainingEnds(m, dialect, n, terms, sb.ts, args, allText);
    }

    /** A bounded query asks for one row more than the window; an unbounded one that skips rows needs
        an explicit "all rows" limit on some dialects. */
    method WriteLimit(sb: TextBuilder, n: nat, limit: int, offset: int) returns (args: seq<Value>)
      modifies sb
      ensures sb.ts == old(sb.ts) + LimitText(MarkerOf(dialect), dialect, n, limit, offset)
      ensures args == LimitArgs(limit, offset)
    {
      var m := MarkerOf(dialect);
      args := [];
      ghost var start := sb.ts;
      if limit > 0 {
        sb.ts := sb.ts + [LimitWord];
        sb.ts := sb.ts + [Place(m, n + 1)];
        sb.ts := sb.ts + [OffsetWord];
        sb.ts := sb.ts + [Place(m, n + 2)];
        assert sb.ts == start + [LimitWord, Place(m, n + 1), OffsetWord, Place(m, n + 2)];
        args := [Int(limit + 1), Int(offset)];
      } else if offset > 0 {
        var all := AllRowsLimit(dialect);
        ghost var prefix := [];
        if all.Some? {
          prefix := [LimitWord, AllRows(all.value)];
          sb.ts := sb.ts + [LimitWord, AllRows(all.value)];
        }
        sb.ts := sb.ts + [OffsetWord];
        sb.ts := sb.ts + [Place(m, n + 1)];
        assert sb.ts == start + (prefix + [OffsetWord, Place(m, n + 1)]);
        args := [Int(offset)];
      }
    }

    // ------------------------------------------------ statements

    /** SELECT up to and including WHERE. */
    method WriteHead(where: seq<Token>, window: bool) returns (sb: TextBuilder)
      ensures fresh(sb) && sb.ts == SelectHead(State(), window, where)
    {
      hide ProjectionText;
      hide WhereText;
      sb := new TextBuilder();
      sb.ts := sb.ts + [SelectWord];
      WriteProjection(sb);
      if window {
        sb.ts := sb.ts + [WindowTotal];
      }
      WriteFrom(sb);
      WriteWhere(sb, where);
    }

    method BuildSelect(where: seq<Token>, whereArgs: seq<Value>, limit: int, offset: int, window: bool)
        returns (text: seq<Token>, args: seq<Value>)
      ensures text == SelectText(MarkerOf(dialect), State(), where, |whereArgs|, limit, offset, window)
      ensures args == SelectArgs(State(), whereArgs, limit, offset)
    {
      hide ProjectionText;
      hide WhereText;
      hide GroupByText;
      hide HavingText;
      hide OrderText;
      hide OrderArgs;
      var m := MarkerOf(dialect);
      hide SelectHead;
      var sb := WriteHead(where, window);
      args := WriteGroupHaving(sb, whereArgs);
      var more := WriteOrder(sb, order, |args|);
      args := args + more;
      JoinMiddle(m, State(), |whereArgs|, order, SelectHead(State(), window, where), whereArgs);
      hide MiddleText;
      hide MiddleArgs;
      hide LimitText;
      hide LimitArgs;
      more := WriteLimit(sb, |args|, limit, offset);
      args := args + more;
      text := sb.ts;
    }

    method BuildKeysetSelect(where: seq<Token>, whereArgs: seq<Value>, terms: seq<OrderTerm>, limit: int)
        returns (text: seq<Token>, args: seq<Value>)
      ensures text == KeysetText(MarkerOf(dialect), State(), where, |whereArgs|, terms)
      ensures args == KeysetArgs(State(), whereArgs, terms, limit)
    {
      hide ProjectionText;
      hide WhereText;
      hide GroupByText;
      hide HavingText;
      hide OrderText;
      hide OrderArgs;
      var m := MarkerOf(dialect);
      hide SelectHead;
      var sb := WriteHead(where, false);
      args := WriteGroupHaving(sb, whereArgs);
      var more := WriteOrder(sb, terms, |args|);
      args := args + more;
      JoinMiddle(m, State(), |whereArgs|, terms, SelectHead(State(), false, where), whereArgs);
      hide MiddleText;
      hide MiddleArgs;
      sb.ts := sb.ts + [LimitWord];
      sb.ts := sb.ts + [Place(m, |args| + 1)];
      args := args + [Int(limit)];
      text := sb.ts;
    }

    /** The COUNT statement for a filter; a grouped query is wrapped. */
    method BuildCount(where: seq<Token>, whereArgs: seq<Value>) returns (text: seq<Token>, args: seq<Value>)
      ensures text == CountText(MarkerOf(dialect), State(), where, |whereArgs|)
      ensures args == CountArgs(State(), whereArgs)
    {
      hide WhereText;
      hide GroupByText;
      hide HavingText;
      var sb := new TextBuilder();
      args := whereArgs;
      if |groupBy| > 0 || having.Some? {
        sb.ts := sb.ts + [CountGroups];
        WriteFrom(sb);
        WriteWhere(sb, where);
        args := WriteGroupHaving(sb, args);
        sb.ts := sb.ts + [GroupsAlias];
      } else {
        sb.ts := sb.ts + [SelectCount];
        WriteFrom(sb);
        WriteWhere(sb, where);
      }
      text := sb.ts;
    }

    /** The statement of a DELETE; without a filter only when that was authorised. */
    method Delete() returns (stmt: Result<Statement, Failure>)
      ensures stmt == DeleteOutcome(State())
    {
      hide CondText;
      hide CondArgs;
      if err.Some? {
        return Err(err.value);
      }
      if from.Some? && (from.value.alias != "" || from.value.joins > 0) {
        return Err(NotSingleTable);
      }
      var where, args := BuildAt(EffectiveCond(State()), MarkerOf(dialect), 0);
      if where == [] && !unfiltered {
        return Err(NoFilter);
      }
      var sb := new TextBuilder();
      sb.ts := sb.ts + [DeleteWord];
      sb.ts := sb.ts + [Source(if from.None? then "" else from.value.text)];
      assert sb.ts == [DeleteWord, Source(if from.None? then "" else from.value.text)];
      hide WhereText;
      WriteWhere(sb, where);
      stmt := Ok(Statement(sb.ts, args));
    }

    method WriteAssignment(sb: TextBuilder, col: string, n: nat)
      modifies sb
      ensures sb.ts == old(sb.ts) + [Ident(col), Oper(OpEq), Place(MarkerOf(dialect), n + 1)]
    {
      sb.ts := sb.ts + [Ident(col)];
      sb.ts := sb.ts + [Oper(OpEq)];
      sb.ts := sb.ts + [Place(MarkerOf(dialect), n + 1)];
    }

    method WriteAssignments(sb: TextBuilder, set_: map<string, Value>, cols: seq<string>) returns (args: seq<Value>)
      requires forall c :: c in cols ==> c in set_
      modifies sb
      ensures sb.ts == old(sb.ts) + AssignText(MarkerOf(dialect), 0, cols)
      ensures args == Values(set_, cols)
    {
      hide AssignText;
      hide AssignTail;
      hide Values;
      var m := MarkerOf(dialect);
      ghost var allText := sb.ts + AssignText(m, 0, cols);
      args := [];
      AssignSteps(m, 0, cols, true, sb.ts);
      for i := 0 to |cols|
        invariant sb.ts + AssignTail(m, i, cols[i..], i == 0) == allText
        invariant args == Values(set_, cols)[..i]
      {
        AssignSteps(m, i, cols[i..], i == 0, sb.ts);
        assert cols[i..][1..] == cols[i + 1..] && cols[i..][0] == cols[i];
        if i > 0 {
          sb.ts := sb.ts + [Comma];
        }
        WriteAssignment(sb, cols[i], i);
        assert cols[i] in cols;
        args := args + [set_[cols[i]]];
      }
      AssignSteps(m, |cols|, [], false, sb.ts);
    }

    /** The statement of an UPDATE: assignments in sorted column order, then the WHERE, rendered a
        second time so that its placeholders follow the assignments. */
    method Update(set_: map<string, Value>, keys: seq<string>) returns (stmt: Result<Statement, Failure>)
      requires Enumerates(keys, set_)
      ensures stmt == UpdateOutcome(State(), set_, keys)
    {
      hide CondText;
      hide CondArgs;
      hide AssignText;
      if err.Some? {
        return Err(err.value);
      }
      if from.Some? && (from.value.alias != "" || from.value.joins > 0) {
        return Err(NotSingleTable);
      }
      if |keys| == 0 {
        return Err(NothingToSet);
      }
      var m, c := MarkerOf(dialect), EffectiveCond(State());
      var where, whereArgs := BuildAt(c, m, 0);
      if where == [] && !unfiltered {
        return Err(NoFilter);
      }
      var cols := Text.SortStrings(keys);
      var sb := new TextBuilder();
      sb.ts := sb.ts + [UpdateWord];
      sb.ts := sb.ts + [Source(if from.None? then "" else from.value.text)];
      sb.ts := sb.ts + [SetWord];
      assert sb.ts == [UpdateWord, Source(if from.None? then "" else from.value.text), SetWord];
      hide WhereText;
      var args := WriteAssignments(sb, set_, cols);
      SameEmptiness(m, |cols|, c);
      if where != [] {
        where, whereArgs := BuildAt(c, m, |cols|);
        WriteWhere(sb, where);
      } else {
        NoWhere(sb.ts);
      }
      stmt := Ok(Statement(sb.ts, args + whereArgs));
    }
  }

  // ---------------------------------------------------------------- helpers of the methods

  lemma {:induction false} PlainRanksAppend(order: seq<OrderTerm>, t: OrderTerm)
    requires t.nulls == NullsDefault
    ensures PlainRanks(order) ==> PlainRanks(order + [t])
  {
    if order != [] {
      assert (order + [t])[1..] == order[1..] + [t];
      PlainRanksAppend(order[1..], t);
    }
  }

  lemma HavingBlank(m: Marker, k: nat, having: Option<Cond>)
    ensures FilterText(m, k, having) == [] ==> FilterArgs(having) == []
  {
    hide CondText;
    hide CondArgs;
    if having.Some? {
      BlankIffVacuous(m, k, having.value);
    }
  }

  lemma NoWhere(text: seq<Token>)
    ensures text + WhereText([]) == text
  {
  }

  lemma JoinMiddle(m: Marker, s: Spec, k: nat, order: seq<OrderTerm>, head: seq<Token>, whereArgs: seq<Value>)
    ensures head + (GroupByText(s.groupBy) + HavingText(m, k, s.having)) +
      OrderText(m, s.dialect, k + |FilterArgs(s.having)|, order) ==
      head + MiddleText(m, s, k, order)
    ensures whereArgs + FilterArgs(s.having) + OrderArgs(order) == whereArgs + MiddleArgs(s, order)
  {
    hide GroupByText;
    hide HavingText;
    hide OrderText;
    hide OrderArgs;
    Assoc(head, GroupByText(s.groupBy) + HavingText(m, k, s.having),
      OrderText(m, s.dialect, k + |FilterArgs(s.having)|, order));
    Assoc(whereArgs, FilterArgs(s.having), OrderArgs(order));
  }

  /** The guard's verdict on the first rendering holds for the second one. */
  lemma SameEmptiness(m: Marker, k: nat, c: Option<Cond>)
    ensures FilterText(m, 0, c) == [] <==> FilterText(m, k, c) == []
    ensures FilterText(m, 0, c) == [] ==> FilterArgs(c) == []
  {
    hide CondText;
    hide CondArgs;
    if c.Some? {
      BlankIffVacuous(m, 0, c.value);
      BlankIffVacuous(m, k, c.value);
    }
  }
}
