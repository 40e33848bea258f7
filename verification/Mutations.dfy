/**
  DELETE and UPDATE executed by the abstract database: which rows they reach, what they write, and
  when they may run without a WHERE.
 */
module Mutations {
  import opened Conditions
  import opened Database
  import opened Dialects
  import opened Fluent
  import opened Logic
  import opened Parser
  import opened Queries
  import opened Sql
  import opened Wrappers
  import Text

  // ---------------------------------------------------------------- executing DELETE

  function SparedBy(e: Env, args: seq<Value>, x: Option<Expr>, rows: seq<Row>): seq<Row> {
    if rows == [] then []
    else if x.None? || Meaning(e, args, x.value, rows[0]) == True then SparedBy(e, args, x, rows[1..])
    else [rows[0]] + SparedBy(e, args, x, rows[1..])
  }

  /** The table that a statement wrote to, and its rows afterwards. */
  datatype Change = Change(table: string, rows: seq<Row>)

  function ExecDelete(e: Env, d: Dialect, db: Db, text: seq<Token>, args: seq<Value>): Option<Change> {
    match Prepared(d, text)
    case None => None
    case Some(ts) =>
      if |ts| < 2 then None
      else if !ts[0].DeleteWord? || !ts[1].Source? || ts[1].src !in db then None
      else
        match ParseWhere(ts[2..])
        case Fail => None
        case Got(where, rest) =>
          if rest == [] then Some(Change(ts[1].src, SparedBy(e, args, where, db[ts[1].src]))) else None
  }

  /** The rows that do not satisfy the filter, or lie outside the scope. */
  function Spared(e: Env, s: Spec, table: seq<Row>): seq<Row> {
    if table == [] then []
    else if Holds(e, s.cond, table[0]) && Admits(s, table[0]) then Spared(e, s, table[1..])
    else [table[0]] + Spared(e, s, table[1..])
  }

  lemma {:induction false} SparedByText(e: Env, s: Spec, args: seq<Value>, k: nat, rows: seq<Row>)
    requires WellFormedFilter(s) && Bound(args, k, FilterArgs(EffectiveCond(s)))
    ensures SparedBy(e, args, WhereTree(k, EffectiveCond(s)), rows) == Spared(e, s, rows)
  {
    if rows != [] {
      hide Meaning;
      hide Eval;
      hide Tree;
      hide Admits;
      hide Bound;
      hide EffectiveCond;
      SparedByText(e, s, args, k, rows[1..]);
      WhereMeans(e, s, args, k, rows[0]);
    }
  }

  /** The WHERE read back is true exactly on the rows in filter and scope. */
  lemma WhereMeans(e: Env, s: Spec, args: seq<Value>, k: nat, r: Row)
    requires WellFormedFilter(s) && Bound(args, k, FilterArgs(EffectiveCond(s)))
    ensures var x := WhereTree(k, EffectiveCond(s));
      (x.None? || Meaning(e, args, x.value, r) == True) <==> Holds(e, s.cond, r) && Admits(s, r)
  {
    hide Meaning;
    hide Eval;
    hide Tree;
    hide Admits;
    hide Bound;
    hide EffectiveCond;
    hide WellFormedFilter;
    ScopeApplies(e, s, r);
    var c := EffectiveCond(s);
    if c.Some? && !Vacuous(c.value) {
      TreeMeans(e, args, k, c.value, r);
    }
  }

  // ---------------------------------------------------------------- admission

  /** A filter that renders as nothing. */
  predicate BlankFilter(c: Option<Cond>) {
    c.None? || Vacuous(c.value)
  }

  /** No deferred error, one plain table, and a filter or the authorisation to do without. */
  predicate Deletable(s: Spec) {
    && s.err.None?
    && (s.from.Some? ==> s.from.value.alias == "" && s.from.value.joins == 0)
    && (BlankFilter(EffectiveCond(s)) ==> s.unfiltered)
  }

  /** Delete sends a statement exactly then; otherwise the first of the three that is missing is the error. */
  lemma DeleteAdmitted(s: Spec)
    ensures DeleteOutcome(s).Ok? <==> Deletable(s)
    ensures DeleteOutcome(s).Err? ==>
      DeleteOutcome(s).error ==
        if s.err.Some? then s.err.value
        else if s.from.Some? && (s.from.value.alias != "" || s.from.value.joins > 0) then NotSingleTable
        else NoFilter
  {
    hide CondText;
    hide CondArgs;
    hide EffectiveCond;
    if EffectiveCond(s).Some? {
      BlankIffVacuous(MarkerOf(s.dialect), 0, EffectiveCond(s).value);
    }
  }

  /** Update asks the same, and for something to set, before it looks at the filter. */
  lemma UpdateAdmitted(s: Spec, set_: map<string, Value>, keys: seq<string>)
    requires Enumerates(keys, set_)
    ensures UpdateOutcome(s, set_, keys).Ok? <==> Deletable(s) && set_ != map[]
    ensures UpdateOutcome(s, set_, keys).Err? ==>
      UpdateOutcome(s, set_, keys).error ==
        if s.err.Some? then s.err.value
        else if s.from.Some? && (s.from.value.alias != "" || s.from.value.joins > 0) then NotSingleTable
        else if set_ == map[] then NothingToSet
        else NoFilter
  {
    hide CondText;
    hide CondArgs;
    hide EffectiveCond;
    hide Text.SortStrings;
    NothingEnumerated(keys, set_);
    if EffectiveCond(s).Some? {
      BlankIffVacuous(MarkerOf(s.dialect), 0, EffectiveCond(s).value);
    }
  }

  lemma NothingEnumerated(keys: seq<string>, set_: map<string, Value>)
    requires Enumerates(keys, set_)
    ensures keys == [] <==> set_ == map[]
  {
    if keys != [] {
      assert keys[0] in set_;
    }
  }

  // ---------------------------------------------------------------- what DELETE does

  /** A DELETE on a table the database has removes from it exactly the rows that satisfy both the filter
      and the soft-delete scope, on every dialect. */
  lemma DeleteMeans(e: Env, s: Spec, db: Db)
    requires WellFormedFilter(s) && Deletable(s) && s.from.Some? && s.from.value.text in db
    ensures DeleteOutcome(s).Ok?
    ensures var stmt, name := DeleteOutcome(s).value, s.from.value.text;
      ExecDelete(e, s.dialect, db, stmt.text, stmt.args) == Some(Change(name, Spared(e, s, db[name])))
  {
    hide Meaning;
    hide ParseWhere;
    hide FilterText;
    hide EffectiveCond;
    hide WellFormedFilter;
    hide SparedBy;
    hide Spared;
    hide WhereTree;
    hide WhereText;
    hide Deletable;
    hide BlankFilter;
    hide Prepared;
    var m, c, table := MarkerOf(s.dialect), EffectiveCond(s), db[s.from.value.text];
    DeleteAdmitted(s);
    ScopeApplies(e, s, map[]);
    DeleteNumbered(m, s, c);
    PreparedReads(s.dialect, DeleteText(s, FilterText(m, 0, c)), DeleteText(s, FilterText(Numbered, 0, c)),
      |FilterArgs(c)|);
    var where := WhereText(FilterText(Numbered, 0, c));
    WhereClauseReadsBack(0, c, []);
    assert where + [] == where;
    var ts := DeleteText(s, FilterText(Numbered, 0, c));
    assert ts[0].DeleteWord? && ts[1] == Source(s.from.value.text) && ts[2..] == where;
    BoundPrefix(FilterArgs(c), []);
    assert FilterArgs(c) + [] == FilterArgs(c);
    SparedByText(e, s, FilterArgs(c), 0, table);
  }

  /** Soft-deleted rows survive a DELETE under the default scope, live rows one under OnlyDeleted. */
  lemma {:induction false} OutOfScopeSurvives(e: Env, s: Spec, table: seq<Row>, r: Row)
    requires r in table && !Admits(s, r)
    ensures r in Spared(e, s, table)
  {
    hide Holds;
    hide Admits;
    if r != table[0] {
      OutOfScopeSurvives(e, s, table[1..], r);
    }
  }

  // ---------------------------------------------------------------- the guard

  /** Without Unfiltered nothing is sent for a filter that renders as nothing; a statement has no WHERE
      exactly when the effective filter renders as nothing, and then it reaches every row. */
  lemma DeleteGuard(e: Env, s: Spec)
    ensures BlankFilter(EffectiveCond(s)) && !s.unfiltered ==> DeleteOutcome(s).Err?
    ensures Deletable(s) ==>
      DeleteOutcome(s).Ok? && (|DeleteOutcome(s).value.text| == 2 <==> BlankFilter(EffectiveCond(s)))
    ensures BlankFilter(EffectiveCond(s)) && WellFormedFilter(s) ==> forall r :: Holds(e, s.cond, r) && Admits(s, r)
  {
    hide CondText;
    hide CondArgs;
    hide EffectiveCond;
    hide Eval;
    hide Admits;
    hide WellFormedFilter;
    var c := EffectiveCond(s);
    if c.Some? {
      BlankIffVacuous(MarkerOf(s.dialect), 0, c.value);
    }
    if BlankFilter(c) && WellFormedFilter(s) {
      forall r
        ensures Holds(e, s.cond, r) && Admits(s, r)
      {
        ScopeApplies(e, s, r);
      }
    }
  }

  /** The same guard on UPDATE, though its WHERE is rendered a second time at another offset. */
  lemma UpdateGuard(s: Spec, set_: map<string, Value>, keys: seq<string>)
    requires Enumerates(keys, set_)
    ensures BlankFilter(EffectiveCond(s)) && !s.unfiltered ==> UpdateOutcome(s, set_, keys).Err?
    ensures Deletable(s) && set_ != map[] ==>
      var stmt := UpdateOutcome(s, set_, keys);
      stmt.Ok? && (WhereWord in stmt.value.text <==> !BlankFilter(EffectiveCond(s)))
  {
    NothingEnumerated(keys, set_);
    hide CondText;
    hide CondArgs;
    hide EffectiveCond;
    var m, c, cols := MarkerOf(s.dialect), EffectiveCond(s), Text.SortStrings(keys);
    if c.Some? {
      BlankIffVacuous(m, 0, c.value);
      BlankIffVacuous(m, |cols|, c.value);
    }
    AssignHasNoWhere(m, 0, cols);
  }

  lemma {:induction false} AssignHasNoWhere(m: Marker, k: nat, cols: seq<string>)
    ensures WhereWord !in AssignText(m, k, cols)
    decreases cols
  {
    if |cols| > 1 {
      AssignHasNoWhere(m, k + 1, cols[1..]);
    }
  }

  // ---------------------------------------------------------------- executing UPDATE

  datatype Assignment = Assignment(col: string, slot: nat)

  function ParseAssignments(ts: seq<Token>): Parsed<seq<Assignment>> {
    if |ts| < 3 || !ts[0].Ident? || ts[1] != Oper(OpEq) || !ts[2].Slot? then Fail
    else
      var one := Assignment(ts[0].name, ts[2].k);
      if |ts| > 3 && ts[3].Comma? then
        match ParseAssignments(ts[4..])
        case Fail => Fail
        case Got(more, rest) => Got([one] + more, rest)
      else Got([one], ts[3..])
  }

  function Assign(args: seq<Value>, todo: seq<Assignment>, r: Row): Row {
    if todo == [] then r else Assign(args, todo[1..], r[todo[0].col := Arg(args, todo[0].slot)])
  }

  function Rewrite(e: Env, args: seq<Value>, todo: seq<Assignment>, x: Option<Expr>, rows: seq<Row>): seq<Row> {
    if rows == [] then []
    else
      [if x.None? || Meaning(e, args, x.value, rows[0]) == True then Assign(args, todo, rows[0]) else rows[0]] +
      Rewrite(e, args, todo, x, rows[1..])
  }

  function ExecUpdate(e: Env, d: Dialect, db: Db, text: seq<Token>, args: seq<Value>): Option<Change> {
    match Prepared(d, text)
    case None => None
    case Some(ts) =>
      if |ts| < 3 then None
      else if !ts[0].UpdateWord? || !ts[1].Source? || ts[1].src !in db || !ts[2].SetWord? then None
      else
        match ParseAssignments(ts[3..])
        case Fail => None
        case Got(todo, r1) =>
          match ParseWhere(r1)
          case Fail => None
          case Got(where, rest) =>
            if rest == [] then Some(Change(ts[1].src, Rewrite(e, args, todo, where, db[ts[1].src]))) else None
  }

  /** Every row in filter and scope takes over the assigned values; the others stay as they are. */
  function Updated(e: Env, s: Spec, set_: map<string, Value>, table: seq<Row>): seq<Row> {
    if table == [] then []
    else
      [if Holds(e, s.cond, table[0]) && Admits(s, table[0]) then table[0] + set_ else table[0]] +
      Updated(e, s, set_, table[1..])
  }

  function Todo(k: nat, cols: seq<string>): seq<Assignment>
    decreases cols
  {
    if cols == [] then [] else [Assignment(cols[0], k + 1)] + Todo(k + 1, cols[1..])
  }

  lemma {:induction false} AssignReadsBack(k: nat, cols: seq<string>, rest: seq<Token>)
    requires cols != [] && (rest == [] || rest[0].WhereWord?)
    ensures ParseAssignments(AssignText(Numbered, k, cols) + rest) == Got(Todo(k, cols), rest)
    decreases cols
  {
    hide ParseAssignments;
    var one := [Ident(cols[0]), Oper(OpEq), Slot(k + 1)];
    NoneToDo(k + 1);
    if |cols| == 1 {
      LastAssignment(cols[0], k + 1, rest);
      assert cols[1..] == [];
      assert Todo(k, cols) == [Assignment(cols[0], k + 1)];
    } else {
      var more := AssignText(Numbered, k + 1, cols[1..]);
      AssignReadsBack(k + 1, cols[1..], rest);
      hide AssignText;
      NextAssignment(cols[0], k + 1, more + rest);
      Assoc(one + [Comma], more, rest);
      assert one + [Comma] == [Ident(cols[0]), Oper(OpEq), Slot(k + 1), Comma];
    }
  }

  lemma NoneToDo(k: nat)
    ensures Todo(k, []) == []
  {
  }

  lemma LastAssignment(col: string, slot: nat, rest: seq<Token>)
    requires rest == [] || rest[0].WhereWord?
    ensures ParseAssignments([Ident(col), Oper(OpEq), Slot(slot)] + rest) == Got([Assignment(col, slot)], rest)
  {
    assert ([Ident(col), Oper(OpEq), Slot(slot)] + rest)[3..] == rest;
  }

  lemma NextAssignment(col: string, slot: nat, more: seq<Token>)
    ensures ParseAssignments([Ident(col), Oper(OpEq), Slot(slot), Comma] + more) ==
      match ParseAssignments(more)
      case Fail => Fail
      case Got(todo, rest) => Got([Assignment(col, slot)] + todo, rest)
  {
    var ts := [Ident(col), Oper(OpEq), Slot(slot), Comma] + more;
    assert ts[4..] == more && ts[0] == Ident(col) && ts[1] == Oper(OpEq) && ts[2] == Slot(slot) && ts[3] == Comma;
  }

  function Restrict(set_: map<string, Value>, cols: seq<string>): map<string, Value>
    requires forall c :: c in cols ==> c in set_
  {
    map c | c in cols :: set_[c]
  }

  /** The value of the i-th column is the i-th argument from `k` on. */
  predicate ValuesAt(args: seq<Value>, k: nat, set_: map<string, Value>, cols: seq<string>)
    requires forall c :: c in cols ==> c in set_
  {
    k + |cols| <= |args| && args[k..k + |cols|] == Values(set_, cols)
  }

  lemma {:induction false} AssignMeans(set_: map<string, Value>, args: seq<Value>, k: nat, cols: seq<string>, r: Row)
    requires forall c :: c in cols ==> c in set_
    requires ValuesAt(args, k, set_, cols)
    ensures Assign(args, Todo(k, cols), r) == r + Restrict(set_, cols)
    decreases cols
  {
    if cols == [] {
      assert r + Restrict(set_, cols) == r;
    } else {
      NextValue(set_, args, k, cols);
      hide ValuesAt;
      AssignMeans(set_, args, k + 1, cols[1..], r[cols[0] := set_[cols[0]]]);
      RestrictStep(set_, cols, r);
      hide Restrict;
    }
  }

  lemma NextValue(set_: map<string, Value>, args: seq<Value>, k: nat, cols: seq<string>)
    requires cols != [] && (forall c :: c in cols ==> c in set_) && ValuesAt(args, k, set_, cols)
    ensures Arg(args, k + 1) == set_[cols[0]] && ValuesAt(args, k + 1, set_, cols[1..])
  {
    assert args[k..k + |cols|][0] == Values(set_, cols)[0];
    assert args[k + 1..k + |cols|] == args[k..k + |cols|][1..];
  }

  lemma RestrictStep(set_: map<string, Value>, cols: seq<string>, r: Row)
    requires cols != [] && forall c :: c in cols ==> c in set_
    ensures r[cols[0] := set_[cols[0]]] + Restrict(set_, cols[1..]) == r + Restrict(set_, cols)
  {
    assert cols == [cols[0]] + cols[1..];
  }

  lemma {:induction false} RewriteByText(e: Env, s: Spec, set_: map<string, Value>, cols: seq<string>,
      args: seq<Value>, rows: seq<Row>)
    requires WellFormedFilter(s) && Bound(args, |cols|, FilterArgs(EffectiveCond(s)))
    requires forall c :: c in cols <==> c in set_
    requires ValuesAt(args, 0, set_, cols)
    ensures Rewrite(e, args, Todo(0, cols), WhereTree(|cols|, EffectiveCond(s)), rows) == Updated(e, s, set_, rows)
  {
    if rows != [] {
      hide Meaning;
      hide Eval;
      hide Tree;
      hide Admits;
      hide Bound;
      hide EffectiveCond;
      hide WellFormedFilter;
      hide Assign;
      hide Todo;
      hide Holds;
      hide WhereTree;
      hide ValuesAt;
      RewriteByText(e, s, set_, cols, args, rows[1..]);
      WhereMeans(e, s, args, |cols|, rows[0]);
      AssignMeans(set_, args, 0, cols, rows[0]);
      assert Restrict(set_, cols) == set_;
    }
  }

  /** An UPDATE of something on a table the database has gives exactly the rows in filter and scope the
      assigned values, and leaves every other row alone, on every dialect and for every enumeration of the
      assignment map. */
  lemma UpdateMeans(e: Env, s: Spec, set_: map<string, Value>, keys: seq<string>, db: Db)
    requires WellFormedFilter(s) && Deletable(s) && s.from.Some? && s.from.value.text in db
    requires Enumerates(keys, set_) && set_ != map[]
    ensures UpdateOutcome(s, set_, keys).Ok?
    ensures var stmt, name := UpdateOutcome(s, set_, keys).value, s.from.value.text;
      ExecUpdate(e, s.dialect, db, stmt.text, stmt.args) == Some(Change(name, Updated(e, s, set_, db[name])))
  {
    hide Deletable;
    hide BlankFilter;
    hide Prepared;
    hide FilterText;
    hide EffectiveCond;
    hide WellFormedFilter;
    hide UpdateText;
    hide ParseWhere;
    hide ParseAssignments;
    hide WhereText;
    hide WhereTree;
    hide Rewrite;
    hide Updated;
    hide Todo;
    hide Bound;
    hide Text.SortStrings;
    var c, cols := EffectiveCond(s), Text.SortStrings(keys);
    UpdateAdmitted(s, set_, keys);
    NothingEnumerated(keys, set_);
    ScopeApplies(e, s, map[]);
    UpdatePrepared(s, cols, c);
    UpdateReadsBack(s, cols, c);
    var args := Values(set_, cols) + FilterArgs(c);
    BoundBehind(Values(set_, cols), FilterArgs(c));
    assert args[0..|cols|] == Values(set_, cols);
    RewriteByText(e, s, set_, cols, args, db[s.from.value.text]);
  }

  lemma UpdatePrepared(s: Spec, cols: seq<string>, c: Option<Cond>)
    ensures var m := MarkerOf(s.dialect);
      Prepared(s.dialect, UpdateText(m, s, cols, FilterText(m, |cols|, c))) ==
      Some(UpdateText(Numbered, s, cols, FilterText(Numbered, |cols|, c)))
  {
    hide Prepared;
    hide UpdateText;
    hide FilterText;
    var m := MarkerOf(s.dialect);
    UpdateNumbered(m, s, cols, c);
    PreparedReads(s.dialect, UpdateText(m, s, cols, FilterText(m, |cols|, c)),
      UpdateText(Numbered, s, cols, FilterText(Numbered, |cols|, c)), |cols| + |FilterArgs(c)|);
  }

  lemma UpdateReadsBack(s: Spec, cols: seq<string>, c: Option<Cond>)
    requires cols != [] && CleanFilter(c) && s.from.Some?
    ensures var ts, where := UpdateText(Numbered, s, cols, FilterText(Numbered, |cols|, c)),
        WhereText(FilterText(Numbered, |cols|, c));
      && |ts| >= 3 && ts[0].UpdateWord? && ts[1] == Source(s.from.value.text) && ts[2].SetWord?
      && ParseAssignments(ts[3..]) == Got(Todo(0, cols), where)
      && ParseWhere(where) == Got(WhereTree(|cols|, c), [])
  {
    hide FilterText;
    hide AssignText;
    hide ParseWhere;
    hide ParseAssignments;
    hide WhereText;
    hide WhereTree;
    hide Todo;
    hide CleanFilter;
    var where := WhereText(FilterText(Numbered, |cols|, c));
    WhereStarts(|cols|, c);
    AssignReadsBack(0, cols, where);
    WhereClauseReadsBack(|cols|, c, []);
    assert where + [] == where;
    HeadThenTail(s, AssignText(Numbered, 0, cols), where);
  }

  lemma HeadThenTail(s: Spec, assigns: seq<Token>, where: seq<Token>)
    ensures var ts := [UpdateWord, Source(if s.from.None? then "" else s.from.value.text), SetWord] + assigns + where;
      && |ts| >= 3 && ts[0].UpdateWord? && ts[2].SetWord? && ts[3..] == assigns + where
      && (s.from.Some? ==> ts[1] == Source(s.from.value.text))
  {
  }

  lemma WhereStarts(k: nat, c: Option<Cond>)
    ensures var where := WhereText(FilterText(Numbered, k, c)); where == [] || where[0].WhereWord?
  {
    hide FilterText;
  }

  /** Map iteration order does not reach the database: the statement is the same for every enumeration
      of the keys, its columns are strictly sorted, argument i is the value of the i-th column, and
      the WHERE arguments follow. */
  lemma UpdateDeterministic(s: Spec, set_: map<string, Value>, keys: seq<string>, other: seq<string>)
    requires Enumerates(keys, set_) && Enumerates(other, set_)
    ensures UpdateOutcome(s, set_, keys) == UpdateOutcome(s, set_, other)
    ensures Deletable(s) && set_ != map[] ==>
      UpdateOutcome(s, set_, keys).Ok? &&
      var cols, args := Text.SortStrings(keys), UpdateOutcome(s, set_, keys).value.args;
      && Text.Increasing(cols) && (forall c :: c in cols <==> c in set_)
      && |cols| <= |args| && (forall i :: 0 <= i < |cols| ==> args[i] == set_[cols[i]])
      && args[|cols|..] == FilterArgs(EffectiveCond(s))
  {
    hide FilterText;
    hide EffectiveCond;
    hide UpdateText;
    hide Deletable;
    UpdateAdmitted(s, set_, keys);
    NothingEnumerated(keys, set_);
    Text.SortForgetsOrder(keys, other);
    Text.SortIncreases(keys);
    assert |keys| == |Text.SortStrings(keys)| && |other| == |Text.SortStrings(other)|;
  }
}
