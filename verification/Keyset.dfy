/**
  The seek predicate: the OR of AND-prefixes that selects the rows strictly past a boundary, and
  the proof that it is true exactly for those rows, for any number of columns, mixed directions,
  declared null placements and both paging directions.
 */
module Keyset {
  import opened Conditions
  import opened Dialects
  import opened Logic
  import opened Orders
  import opened Wrappers
  import Text

  /** NULL-safe equality with a boundary value. */
  function NullEq(col: string, v: Value): Cond {
    if v.Null? then IsNull(col) else Eq(col, v)
  }

  /** The rows that sort strictly after value `v` at term `t`, or None when there are none.
      Paging backward reverses the direction and the null placement. */
  function AfterCompare(t: OrderTerm, v: Value, before: bool): Option<Cond> {
    var ascending := t.desc == before;
    var nulls := if before then FlipNulls(t.nulls) else t.nulls;
    if v.Null? then
      if nulls == NullsFirst then Some(IsNotNull(t.col)) else None
    else
      var base := if ascending then Gt(t.col, v) else Lt(t.col, v);
      if nulls == NullsLast then Some(Or([Some(base), Some(IsNull(t.col))])) else Some(base)
  }

  function EqualPrefix(order: seq<OrderTerm>, vals: seq<Value>, n: nat): (conds: seq<Cond>)
    requires n <= |order| == |vals|
    ensures |conds| == n
    ensures forall j :: 0 <= j < n ==> conds[j] == NullEq(order[j].col, vals[j])
  {
    if n == 0 then [] else EqualPrefix(order, vals, n - 1) + [NullEq(order[n - 1].col, vals[n - 1])]
  }

  function Branches(order: seq<OrderTerm>, vals: seq<Value>, before: bool, n: nat): seq<Cond>
    requires n <= |order| == |vals|
  {
    if n == 0 then []
    else
      var earlier := Branches(order, vals, before, n - 1);
      match AfterCompare(order[n - 1], vals[n - 1], before)
      case None => earlier
      case Some(cmp) => earlier + [Group(false, EqualPrefix(order, vals, n - 1) + [cmp])]
  }

  /** The whole predicate; nothing sorts past the boundary when no position contributes. */
  function SeekCond(order: seq<OrderTerm>, vals: seq<Value>, before: bool): Cond
    requires |order| == |vals|
  {
    var branches := Branches(order, vals, before, |order|);
    if branches == [] then Raw("1=0", []) else Group(true, branches)
  }

  method KeysetCond(order: seq<OrderTerm>, vals: seq<Value>, before: bool) returns (c: Cond)
    requires |order| == |vals|
    ensures c == SeekCond(order, vals, before)
  {
    var branches := [];
    for i := 0 to |order|
      invariant branches == Branches(order, vals, before, i)
    {
      var cmp := AfterCompare(order[i], vals[i], before);
      if cmp.None? {
        continue;
      }
      var ands := [];
      for j := 0 to i
        invariant ands == EqualPrefix(order, vals, j)
      {
        ands := ands + [NullEq(order[j].col, vals[j])];
      }
      ands := ands + [cmp.value];
      branches := branches + [Group(false, ands)];
    }
    if |branches| == 0 {
      return Raw("1=0", []);
    }
    c := Group(true, branches);
  }

  // ---------------------------------------------------------------- the boundary as positions

  function ValuesPos(e: Env, vals: seq<Value>): (ps: seq<Pos>)
    ensures |ps| == |vals|
    ensures forall i :: 0 <= i < |vals| ==> ps[i] == ValuePos(e, vals[i])
  {
    if vals == [] then [] else [ValuePos(e, vals[0])] + ValuesPos(e, vals[1..])
  }

  /** NULL plays no part at the term, or its placement is declared. */
  predicate Placed(t: OrderTerm, v: Value, r: Row) {
    t.nulls == NullsDefault ==> !v.Null? && !Col(r, t.col).Null?
  }

  /** The documented contract of keyset columns: a term without a declared null placement orders
      by a column that is not NULL. */
  predicate ColumnsPlaced(order: seq<OrderTerm>, vals: seq<Value>, r: Row)
    requires |order| == |vals|
  {
    forall i :: 0 <= i < |order| ==> Placed(order[i], vals[i], r)
  }

  /** Row `r` lies strictly past the boundary in the paging direction. */
  predicate Past(e: Env, d: Dialect, order: seq<OrderTerm>, boundary: seq<Pos>, before: bool, r: Row)
    requires |order| == |boundary|
  {
    if before then Before(d, Dirs(order), RowPos(e, order, r), boundary)
    else Before(d, Dirs(order), boundary, RowPos(e, order, r))
  }

  // ---------------------------------------------------------------- the predicate's meaning

  lemma NullEqMeans(e: Env, col: string, v: Value, r: Row)
    ensures Eval(e, NullEq(col, v), r) == True <==> ValuePos(e, Col(r, col)) == ValuePos(e, v)
  {
  }

  lemma AfterCompareMeans(e: Env, d: Dialect, t: OrderTerm, v: Value, before: bool, r: Row)
    ensures var cmp := AfterCompare(t, v, before);
      var p, q := ValuePos(e, v), ValuePos(e, Col(r, t.col));
      (cmp.Some? && Eval(e, cmp.value, r) == True) <==>
        Placed(t, v, r) && if before then Ahead(d, TermDir(t), q, p) else Ahead(d, TermDir(t), p, q)
  {
    hide Eval;
    hide Or;
    var ascending := t.desc == before;
    var nulls := if before then FlipNulls(t.nulls) else t.nulls;
    if v.Null? {
      LeafEval(e, t.col, OpNNull, Null, r);
    } else {
      var o := if ascending then OpGt else OpLt;
      LeafEval(e, t.col, o, v, r);
      OrNullMeans(e, Leaf(t.col, o, v), t.col, r);
    }
  }

  lemma OrNullShape(base: Cond, col: string)
    ensures Or([Some(base), Some(IsNull(col))]) == Group(true, [base, IsNull(col)])
  {
    var conds := [Some(base), Some(IsNull(col))];
    assert conds[1..] == [Some(IsNull(col))];
    assert conds[1..][1..] == [];
    assert Present(conds[1..]) == [IsNull(col)];
    assert Present(conds) == [base, IsNull(col)];
  }

  lemma OrNullMeans(e: Env, base: Cond, col: string, r: Row)
    ensures Eval(e, Or([Some(base), Some(IsNull(col))]), r) == True <==> Eval(e, base, r) == True || Col(r, col).Null?
  {
    var both := [base, IsNull(col)];
    OrNullShape(base, col);
    hide Or;
    AnyOfTrue(e, both, r);
    assert both[0] == base && both[1] == IsNull(col);
  }

  predicate HoldsAt(e: Env, conds: seq<Cond>, j: nat, r: Row)
    requires j < |conds|
  {
    Eval(e, conds[j], r) == True
  }

  predicate SameAt<T(==)>(p: seq<T>, q: seq<T>, j: nat)
    requires j < |p| == |q|
  {
    p[j] == q[j]
  }

  predicate AllHold(e: Env, conds: seq<Cond>, r: Row) {
    forall j :: 0 <= j < |conds| ==> HoldsAt(e, conds, j, r)
  }

  lemma EqualPrefixMeans(e: Env, order: seq<OrderTerm>, vals: seq<Value>, n: nat, r: Row)
    requires n <= |order| == |vals|
    requires !HasRelevance(order)
    ensures AllHold(e, EqualPrefix(order, vals, n), r) <==> RowPos(e, order, r)[..n] == ValuesPos(e, vals)[..n]
  {
    hide HoldsAt;
    hide SameAt;
    var p, q, conds := RowPos(e, order, r), ValuesPos(e, vals), EqualPrefix(order, vals, n);
    PrefixesAgree(p, q, n);
    forall j | 0 <= j < n
      ensures HoldsAt(e, conds, j, r) == SameAt(p, q, j)
    {
      EqualAt(e, order, vals, n, j, r);
    }
    if p[..n] != q[..n] {
      var j :| 0 <= j < n && !SameAt(p, q, j);
      assert !HoldsAt(e, conds, j, r);
    }
  }

  lemma EqualAt(e: Env, order: seq<OrderTerm>, vals: seq<Value>, n: nat, j: nat, r: Row)
    requires j < n <= |order| == |vals|
    requires !HasRelevance(order)
    ensures HoldsAt(e, EqualPrefix(order, vals, n), j, r) <==> SameAt(RowPos(e, order, r), ValuesPos(e, vals), j)
  {
    hide Eval;
    NullEqMeans(e, order[j].col, vals[j], r);
  }

  lemma PrefixesAgree<T>(p: seq<T>, q: seq<T>, n: nat)
    requires n <= |p| == |q|
    ensures p[..n] == q[..n] <==> forall j :: 0 <= j < n ==> SameAt(p, q, j)
  {
    if forall j :: 0 <= j < n ==> SameAt(p, q, j) {
      forall j | 0 <= j < n
        ensures p[j] == q[j]
      {
        assert SameAt(p, q, j);
      }
    }
    if p[..n] == q[..n] {
      forall j | 0 <= j < n
        ensures SameAt(p, q, j)
      {
        assert p[..n][j] == p[j] && q[..n][j] == q[j];
      }
    }
  }

  /** Position `i` decides: the row equals the boundary before it and is past it there. */
  predicate PastAt(e: Env, d: Dialect, order: seq<OrderTerm>, vals: seq<Value>, before: bool, r: Row, i: nat)
    requires i < |order| == |vals|
  {
    var p, q := RowPos(e, order, r), ValuesPos(e, vals);
    && p[..i] == q[..i]
    && if before then Ahead(d, TermDir(order[i]), p[i], q[i]) else Ahead(d, TermDir(order[i]), q[i], p[i])
  }

  /** The branch of position `i` selects the row: the position decides, and NULL is placed there. */
  predicate SelectedAt(e: Env, d: Dialect, order: seq<OrderTerm>, vals: seq<Value>, before: bool, r: Row, i: nat)
    requires i < |order| == |vals|
  {
    PastAt(e, d, order, vals, before, r, i) && Placed(order[i], vals[i], r)
  }

  lemma BranchMeans(e: Env, d: Dialect, order: seq<OrderTerm>, vals: seq<Value>, before: bool, r: Row, i: nat)
    requires i < |order| == |vals|
    requires !HasRelevance(order)
    ensures var cmp := AfterCompare(order[i], vals[i], before);
      (cmp.Some? && Eval(e, Group(false, EqualPrefix(order, vals, i) + [cmp.value]), r) == True) <==>
      SelectedAt(e, d, order, vals, before, r, i)
  {
    hide AfterCompare;
    hide EqualPrefix;
    hide RowPos;
    hide Ahead;
    hide Placed;
    AfterCompareMeans(e, d, order[i], vals[i], before, r);
    EqualPrefixMeans(e, order, vals, i, r);
    var cmp := AfterCompare(order[i], vals[i], before);
    if cmp.Some? {
      ConjunctionMeans(e, EqualPrefix(order, vals, i), cmp.value, r);
    }
  }

  lemma ConjunctionMeans(e: Env, conds: seq<Cond>, last: Cond, r: Row)
    ensures Eval(e, Group(false, conds + [last]), r) == True <==>
      AllHold(e, conds, r) && Eval(e, last, r) == True
  {
    var all := conds + [last];
    AllOfTrue(e, all, r);
    assert all[|conds|] == last;
    assert forall j :: 0 <= j < |conds| ==> all[j] == conds[j];
    if AllHold(e, conds, r) {
      forall j | 0 <= j < |conds|
        ensures Eval(e, all[j], r) == True
      {
        assert HoldsAt(e, conds, j, r);
      }
    }
  }

  predicate AnyTrue(e: Env, conds: seq<Cond>, r: Row) {
    exists i :: 0 <= i < |conds| && Eval(e, conds[i], r) == True
  }

  lemma AnyTrueAppend(e: Env, conds: seq<Cond>, last: Cond, r: Row)
    ensures AnyTrue(e, conds + [last], r) <==> AnyTrue(e, conds, r) || Eval(e, last, r) == True
  {
    var all := conds + [last];
    assert all[|conds|] == last;
    assert forall j :: 0 <= j < |conds| ==> all[j] == conds[j];
  }

  /** Some branch below `n` selects the row. */
  predicate SelectedBelow(e: Env, d: Dialect, order: seq<OrderTerm>, vals: seq<Value>, before: bool, r: Row, n: nat)
    requires n <= |order| == |vals|
  {
    exists i :: 0 <= i < n && SelectedAt(e, d, order, vals, before, r, i)
  }

  lemma {:induction false} BranchesMean(e: Env, d: Dialect, order: seq<OrderTerm>, vals: seq<Value>, before: bool,
      r: Row, n: nat)
    requires n <= |order| == |vals|
    requires !HasRelevance(order)
    ensures AnyTrue(e, Branches(order, vals, before, n), r) <==> SelectedBelow(e, d, order, vals, before, r, n)
  {
    hide Eval;
    hide AfterCompare;
    hide SelectedAt;
    hide EqualPrefix;
    if n > 0 {
      hide AnyTrue;
      BranchesMean(e, d, order, vals, before, r, n - 1);
      BranchMeans(e, d, order, vals, before, r, n - 1);
      var cmp := AfterCompare(order[n - 1], vals[n - 1], before);
      if cmp.Some? {
        AnyTrueAppend(e, Branches(order, vals, before, n - 1),
          Group(false, EqualPrefix(order, vals, n - 1) + [cmp.value]), r);
      }
      assert SelectedBelow(e, d, order, vals, before, r, n) <==>
        SelectedBelow(e, d, order, vals, before, r, n - 1) || SelectedAt(e, d, order, vals, before, r, n - 1);
    }
  }

  /** What the predicate selects, contract or not: the rows past the boundary whose deciding column has
      no undeclared NULL on either side. */
  lemma SeekCondExact(e: Env, d: Dialect, order: seq<OrderTerm>, vals: seq<Value>, before: bool, r: Row)
    requires |order| == |vals| && !HasRelevance(order)
    ensures Eval(e, SeekCond(order, vals, before), r) == True <==>
      exists i :: 0 <= i < |order| && SelectedAt(e, d, order, vals, before, r, i)
  {
    hide SelectedAt;
    var branches := Branches(order, vals, before, |order|);
    BranchesMean(e, d, order, vals, before, r, |order|);
    if branches == [] {
      RawFalse(e, r);
    } else {
      AnyOfTrue(e, branches, r);
    }
  }

  /** Even when the contract is broken, only rows strictly past the boundary are selected: a page never
      repeats the row it seeks from, nor one before it. */
  lemma SeekCondSound(e: Env, d: Dialect, order: seq<OrderTerm>, vals: seq<Value>, before: bool, r: Row)
    requires |order| == |vals| && !HasRelevance(order) && Eval(e, SeekCond(order, vals, before), r) == True
    ensures Past(e, d, order, ValuesPos(e, vals), before, r)
  {
    hide PastAt;
    hide Past;
    hide Eval;
    hide SeekCond;
    hide Placed;
    SeekCondExact(e, d, order, vals, before, r);
    PastSomewhere(e, d, order, vals, before, r);
    var i :| 0 <= i < |order| && SelectedAt(e, d, order, vals, before, r, i);
    assert PastAt(e, d, order, vals, before, r, i);
  }

  /** The predicate is true on a row exactly when the row lies strictly past the boundary. */
  lemma SeekCondMeans(e: Env, d: Dialect, order: seq<OrderTerm>, vals: seq<Value>, before: bool, r: Row)
    requires |order| == |vals|
    requires !HasRelevance(order) && ColumnsPlaced(order, vals, r)
    ensures Eval(e, SeekCond(order, vals, before), r) == True <==> Past(e, d, order, ValuesPos(e, vals), before, r)
  {
    hide PastAt;
    hide Past;
    hide Eval;
    hide SeekCond;
    hide Placed;
    SeekCondExact(e, d, order, vals, before, r);
    PastSomewhere(e, d, order, vals, before, r);
    if Past(e, d, order, ValuesPos(e, vals), before, r) {
      var i :| 0 <= i < |order| && PastAt(e, d, order, vals, before, r, i);
      assert SelectedAt(e, d, order, vals, before, r, i);
    }
    if Eval(e, SeekCond(order, vals, before), r) == True {
      SeekCondSound(e, d, order, vals, before, r);
    }
  }

  lemma ConstantParts(s: string)
    requires s != "" && '?' !in s
    ensures Text.Split(s, '?') == [s] && Parts([s], []) == [PText(s)]
  {
    var pieces := Text.Split(s, '?');
    assert pieces == [s];
    assert pieces[1..] == [];
    assert Parts(pieces[1..], []) == [];
  }

  lemma ConstantClean(s: string)
    requires s != "" && '?' !in s
    ensures Clean(Raw(s, [])) && !Vacuous(Raw(s, []))
  {
    ConstantParts(s);
  }

  lemma RawFalse(e: Env, r: Row)
    ensures Eval(e, Raw("1=0", []), r) == False
  {
    ConstantParts("1=0");
  }

  lemma PastSomewhere(e: Env, d: Dialect, order: seq<OrderTerm>, vals: seq<Value>, before: bool, r: Row)
    requires |order| == |vals|
    ensures Past(e, d, order, ValuesPos(e, vals), before, r) <==>
      exists i :: 0 <= i < |order| && PastAt(e, d, order, vals, before, r, i)
  {
    var p, q := RowPos(e, order, r), ValuesPos(e, vals);
    if before {
      BeforeAtPosition(d, Dirs(order), p, q);
      hide Before;
      if i :| 0 <= i < |order| && p[..i] == q[..i] && Ahead(d, Dirs(order)[i], p[i], q[i]) {
        assert PastAt(e, d, order, vals, before, r, i);
      }
    } else {
      BeforeAtPosition(d, Dirs(order), q, p);
      hide Before;
      if i :| 0 <= i < |order| && q[..i] == p[..i] && Ahead(d, Dirs(order)[i], q[i], p[i]) {
        assert PastAt(e, d, order, vals, before, r, i);
      }
    }
  }

  /** The predicate renders as well-formed SQL. */
  lemma SeekCondClean(order: seq<OrderTerm>, vals: seq<Value>, before: bool)
    requires |order| == |vals|
    ensures Clean(SeekCond(order, vals, before)) && !Vacuous(SeekCond(order, vals, before))
  {
    ConstantClean("1=0");
    BranchesClean(order, vals, before, |order|);
  }

  lemma {:induction false} BranchesClean(order: seq<OrderTerm>, vals: seq<Value>, before: bool, n: nat)
    requires n <= |order| == |vals|
    ensures forall b :: b in Branches(order, vals, before, n) ==> Clean(b) && !Vacuous(b)
  {
    if n > 0 {
      BranchesClean(order, vals, before, n - 1);
      PrefixClean(order, vals, n - 1);
      var after := AfterCompare(order[n - 1], vals[n - 1], before);
      if after.Some? {
        AfterClean(order[n - 1], vals[n - 1], before);
        hide AfterCompare;
        hide EqualPrefix;
        var ands := EqualPrefix(order, vals, n - 1) + [after.value];
        assert forall i :: 0 <= i < |ands| ==> Clean(ands[i]) && !Vacuous(ands[i]);
        assert Clean(Group(false, ands)) && !Vacuous(Group(false, ands));
      }
    }
  }

  lemma AfterClean(t: OrderTerm, v: Value, before: bool)
    ensures var after := AfterCompare(t, v, before);
      after.Some? ==> Clean(after.value) && !Vacuous(after.value)
  {
    var nulls := if before then FlipNulls(t.nulls) else t.nulls;
    if !v.Null? && nulls == NullsLast {
      var base := if t.desc == before then Gt(t.col, v) else Lt(t.col, v);
      OrNullShape(base, t.col);
      hide Or;
      hide AfterCompare;
      assert Clean(base) && Clean(IsNull(t.col));
      assert Clean(Group(true, [base, IsNull(t.col)]));
    }
  }

  lemma {:induction false} PrefixClean(order: seq<OrderTerm>, vals: seq<Value>, n: nat)
    requires n <= |order| == |vals|
    ensures forall i :: 0 <= i < n ==> Clean(EqualPrefix(order, vals, n)[i]) && !Vacuous(EqualPrefix(order, vals, n)[i])
  {
    if n > 0 {
      PrefixClean(order, vals, n - 1);
    }
  }

  /** Why the contract is needed: without a declared placement, a NULL that Postgres sorts after
      every value is not selected as coming after one. */
  lemma UndeclaredNullIsMissed(e: Env)
    ensures var order, r := [OrderTerm("x", false, NullsDefault, None)], map["x" := Null];
      && Past(e, Postgres, order, ValuesPos(e, [Int(5)]), false, r)
      && Eval(e, SeekCond(order, [Int(5)], false), r) != True
  {
    var order, r, vals := [OrderTerm("x", false, NullsDefault, None)], map["x" := Null], [Int(5)];
    assert Before(Postgres, Dirs(order), ValuesPos(e, vals), RowPos(e, order, r));
    var only := Group(false, [Gt("x", Int(5))]);
    assert EqualPrefix(order, vals, 0) + [Gt("x", Int(5))] == [Gt("x", Int(5))];
    assert Branches(order, vals, false, 0) == [];
    assert Branches(order, vals, false, 1) == [only];
    SingleChild(e, true, only, r);
    SingleChild(e, false, Gt("x", Int(5)), r);
  }
}
