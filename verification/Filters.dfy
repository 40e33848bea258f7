/**
  From a filter value to the rows that a statement reaches: the compiler, the text and the database
  put together.
 */
module Filters {
  import opened Conditions
  import opened Database
  import Dialects
  import opened Engines
  import opened Fluent
  import opened Listing
  import opened Logic
  import opened Mutations
  import opened Orders
  import opened Pages
  import opened Plans
  import opened Queries
  import opened Seek
  import opened Wrappers

  /** The query filters by the compiled value of a planned filter type. */
  predicate Compiled(s: Spec, plans: Plans, steps: seq<Step>, v: Struct) {
    Planned(plans, true, steps, v.fields) && s.cond == Compile(plans, steps, v.fields)
  }

  /** What the filter value says is true of the row, and the soft-delete scope admits it. */
  predicate Reaches(e: Env, s: Spec, plans: Plans, steps: seq<Step>, v: Struct, r: Row)
    requires Planned(plans, true, steps, v.fields)
  {
    Reading(e, plans, steps, v.fields, r) == True && Admits(s, r)
  }

  /** A compiled filter is always well formed, next to any scope, and keeps the rows it says. */
  lemma CompiledHolds(e: Env, s: Spec, plans: Plans, steps: seq<Step>, v: Struct, r: Row)
    requires Compiled(s, plans, steps, v)
    ensures WellFormedFilter(s) && (s.cond.Some? ==> !Vacuous(s.cond.value))
    ensures Holds(e, s.cond, r) && Admits(s, r) <==> Reaches(e, s, plans, steps, v, r)
  {
    hide Compile;
    hide Planned;
    hide Reading;
    hide Eval;
    hide Imposes;
    hide Admits;
    CompileSolid(plans, steps, v.fields);
    CompileMeans(e, plans, steps, v.fields, r);
  }

  /** SELECT and COUNT for a compiled filter value: the rows it reaches, sorted, and their number. */
  lemma SelectFiltered(h: Host, s: Spec, plans: Plans, steps: seq<Step>, v: Struct, db: Db)
    requires Executes(h) && Known(s, db) && Compiled(s, plans, steps, v)
    requires Countable(s.dialect, |Records(h, s, db)|)
    requires !HasGrouping(s) && PlainRanks(s.order) && (Dialects.SupportsRelevance(s.dialect) || !HasRelevance(s.order))
    ensures Selected(h, s, db, 0, 0, false) == Some(Answer(Shows(s), Records(h, s, db), None))
    ensures Total(h, s, db) == Some(|Records(h, s, db)|)
    ensures forall r :: r in Records(h, s, db) <==> r in Stored(s, db) && Reaches(h.env, s, plans, steps, v, r)
  {
    hide Executes;
    hide Compile;
    hide Planned;
    hide Records;
    hide Selected;
    hide Total;
    hide Reaches;
    hide Holds;
    hide Admits;
    hide WellFormedFilter;
    CompiledHolds(h.env, s, plans, steps, v, map[]);
    SelectedMeans(h, s, db, 0, 0, false);
    CountedMeans(h, s, db);
    SortedMembers(h, s, db);
    assert Records(h, s, db)[0..] == Records(h, s, db);
    forall r
      ensures r in Records(h, s, db) <==> r in Stored(s, db) && Reaches(h.env, s, plans, steps, v, r)
    {
      CompiledHolds(h.env, s, plans, steps, v, r);
    }
  }

  /** DELETE for a compiled filter value leaves exactly the rows it does not reach. */
  lemma DeleteFiltered(e: Env, s: Spec, plans: Plans, steps: seq<Step>, v: Struct, db: Db)
    requires Compiled(s, plans, steps, v) && Deletable(s) && s.from.Some? && s.from.value.text in db
    ensures DeleteOutcome(s).Ok?
    ensures var stmt, name := DeleteOutcome(s).value, s.from.value.text;
      var left := ExecDelete(e, s.dialect, db, stmt.text, stmt.args);
      && left.Some? && left.value.table == name
      && forall r :: r in left.value.rows <==> r in db[name] && !Reaches(e, s, plans, steps, v, r)
  {
    hide DeleteOutcome;
    hide ExecDelete;
    hide Compile;
    hide Planned;
    hide Reaches;
    hide Holds;
    hide Admits;
    hide WellFormedFilter;
    CompiledHolds(e, s, plans, steps, v, map[]);
    DeleteMeans(e, s, db);
    var table := db[s.from.value.text];
    SparedMembers(e, s, table);
    hide Spared;
    forall r
      ensures r in Spared(e, s, table) <==> r in table && !Reaches(e, s, plans, steps, v, r)
    {
      CompiledHolds(e, s, plans, steps, v, r);
    }
  }

  lemma {:induction false} SparedMembers(e: Env, s: Spec, table: seq<Row>)
    ensures forall r :: r in Spared(e, s, table) <==> r in table && !(Holds(e, s.cond, r) && Admits(s, r))
  {
    hide Holds;
    hide Admits;
    if table != [] {
      SparedMembers(e, s, table[1..]);
      assert table == [table[0]] + table[1..];
    }
  }

  /** UPDATE for a compiled filter value rewrites exactly the rows it reaches, in place. */
  lemma UpdateFiltered(e: Env, s: Spec, plans: Plans, steps: seq<Step>, v: Struct, set_: map<string, Value>,
      keys: seq<string>, db: Db)
    requires Compiled(s, plans, steps, v) && Deletable(s) && s.from.Some? && s.from.value.text in db
    requires Enumerates(keys, set_) && set_ != map[]
    ensures UpdateOutcome(s, set_, keys).Ok?
    ensures var stmt, table := UpdateOutcome(s, set_, keys).value, db[s.from.value.text];
      var after := ExecUpdate(e, s.dialect, db, stmt.text, stmt.args);
      && after.Some? && after.value.table == s.from.value.text && |after.value.rows| == |table|
      && forall i :: 0 <= i < |table| ==>
           after.value.rows[i] == if Reaches(e, s, plans, steps, v, table[i]) then table[i] + set_ else table[i]
  {
    hide UpdateOutcome;
    hide ExecUpdate;
    hide Compile;
    hide Planned;
    hide Reaches;
    hide Holds;
    hide Admits;
    hide WellFormedFilter;
    CompiledHolds(e, s, plans, steps, v, map[]);
    UpdateMeans(e, s, set_, keys, db);
    var table := db[s.from.value.text];
    UpdatedAt(e, s, set_, table);
    hide Updated;
    forall i | 0 <= i < |table|
      ensures Updated(e, s, set_, table)[i] ==
        if Reaches(e, s, plans, steps, v, table[i]) then table[i] + set_ else table[i]
    {
      CompiledHolds(e, s, plans, steps, v, table[i]);
    }
  }

  lemma {:induction false} UpdatedAt(e: Env, s: Spec, set_: map<string, Value>, table: seq<Row>)
    ensures |Updated(e, s, set_, table)| == |table|
    ensures forall i :: 0 <= i < |table| ==>
      Updated(e, s, set_, table)[i] ==
        if Holds(e, s.cond, table[i]) && Admits(s, table[i]) then table[i] + set_ else table[i]
  {
    hide Holds;
    hide Admits;
    if table != [] {
      UpdatedAt(e, s, set_, table[1..]);
    }
  }
}
