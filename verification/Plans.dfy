/**
  The filter compiler: a plan of steps for a filter type, applied to a filter value, gives a
  condition tree. A direct reading of the value says what it should mean; the compiled tree means
  that on every row.
 */
module Plans {
  import opened Conditions
  import opened Logic
  import opened Sql
  import opened Wrappers

  // ---------------------------------------------------------------- plans and values

  type TypeName = string

  datatype Step =
    | PredicateStep(col: string)
    | ScalarStep(col: string, op: Op)
    | SliceStep(col: string, op: Op)
    | GroupStep(or: bool, elem: TypeName)
    | ExistsStep(src: string, on: string, sub: TypeName)

  /** The plan cache: a type whose plan failed has none. */
  type Plans = map<TypeName, seq<Step>>

  datatype Holder =
    | Range(eq: Option<Value>, ne: Option<Value>, gt: Option<Value>, lt: Option<Value>,
            gte: Option<Value>, lte: Option<Value>, among: seq<Value>, isNull: Option<bool>)
    | Match(eq: Option<Value>, ne: Option<Value>, among: seq<Value>, isNull: Option<bool>)
    | Text(eq: Option<Value>, ne: Option<Value>, like: Option<Value>, iLike: Option<Value>,
           among: seq<Value>, isNull: Option<bool>)
    | Search(query: Option<string>, config: string)

  /** A filter value: one field per step of its type's plan. */
  datatype Struct = Struct(fields: seq<Field>)

  datatype Field =
    | HolderField(holder: Holder)
    | ScalarField(value: Option<Value>)
    | SliceField(elements: seq<Value>)
    | GroupField(members: seq<Struct>)
    | ExistsField(when: Option<bool>, filter: Struct)

  /** The field has the Go type its step was planned for. */
  predicate SameKind(s: Step, f: Field) {
    match s
    case PredicateStep(_) => f.HolderField?
    case ScalarStep(_, _) => f.ScalarField?
    case SliceStep(_, o) => f.SliceField? && IsList(o)
    case GroupStep(_, _) => f.GroupField?
    case ExistsStep(_, _, _) => f.ExistsField?
  }

  predicate HolderSet(h: Holder) {
    match h
    case Range(eq, ne, gt, lt, gte, lte, among, isNull) =>
      eq.Some? || ne.Some? || gt.Some? || lt.Some? || gte.Some? || lte.Some? || among != [] || isNull.Some?
    case Match(eq, ne, among, isNull) => eq.Some? || ne.Some? || among != [] || isNull.Some?
    case Text(eq, ne, like, iLike, among, isNull) =>
      eq.Some? || ne.Some? || like.Some? || iLike.Some? || among != [] || isNull.Some?
    case Search(query, _) => query.Some?
  }

  /** Something is set in the value, at any depth that counts: a group counts only through a member
      that imposes something, an EXISTS field as soon as it is switched on. */
  predicate Imposes(fields: seq<Field>)
    decreases fields, 0
  {
    fields != [] && (FieldImposes(fields[0]) || Imposes(fields[1..]))
  }

  predicate FieldImposes(f: Field)
    decreases f, 1
  {
    match f
    case HolderField(h) => HolderSet(h)
    case ScalarField(v) => v.Some?
    case SliceField(vs) => vs != []
    case GroupField(members) => MembersImpose(members)
    case ExistsField(when, _) => when.Some?
  }

  predicate MembersImpose(members: seq<Struct>)
    decreases members, 0
  {
    members != [] && (Imposes(members[0].fields) || MembersImpose(members[1..]))
  }

  /** The value has the type that the plan was made for, at every level. With `strict`, moreover, whatever
      it imposes through a child is of a type that has a plan. */
  predicate Planned(plans: Plans, strict: bool, steps: seq<Step>, fields: seq<Field>)
    decreases fields, 0
  {
    |steps| == |fields| &&
    (fields != [] ==> (
        PlannedField(plans, strict, steps[0], fields[0]) && Planned(plans, strict, steps[1..], fields[1..])))
  }

  predicate PlannedField(plans: Plans, strict: bool, s: Step, f: Field)
    decreases f, 1
  {
    && SameKind(s, f)
    && (s.GroupStep? ==>
          if s.elem in plans then PlannedMembers(plans, strict, plans[s.elem], f.members)
          else strict ==> !MembersImpose(f.members))
    && (s.ExistsStep? ==>
          if s.sub in plans then Planned(plans, strict, plans[s.sub], f.filter.fields)
          else strict ==> f.when.None?)
  }

  predicate PlannedMembers(plans: Plans, strict: bool, steps: seq<Step>, members: seq<Struct>)
    decreases members, 0
  {
    members != [] ==> (
        Planned(plans, strict, steps, members[0].fields) && PlannedMembers(plans, strict, steps, members[1..]))
  }

  // ---------------------------------------------------------------- the compiler

  function AppendOpt(c: seq<Cond>, col: string, o: Op, v: Option<Value>): seq<Cond> {
    if v.Some? then c + [Leaf(col, o, v.value)] else c
  }

  function AppendIn(c: seq<Cond>, col: string, vs: seq<Value>): seq<Cond> {
    if |vs| > 0 then c + [Leaf(col, OpIn, Arr(vs))] else c
  }

  function AppendNull(c: seq<Cond>, col: string, want: Option<bool>): seq<Cond> {
    if want.None? then c
    else if want.value then c + [Leaf(col, OpNull, Null)]
    else c + [Leaf(col, OpNNull, Null)]
  }

  /** The conditions of a holder: only for the operators that are set. */
  function Predicates(h: Holder, col: string): seq<Cond> {
    match h
    case Range(eq, ne, gt, lt, gte, lte, among, isNull) =>
      var c := AppendOpt(AppendOpt([], col, OpEq, eq), col, OpNe, ne);
      var c := AppendOpt(AppendOpt(c, col, OpGt, gt), col, OpGte, gte);
      var c := AppendOpt(AppendOpt(c, col, OpLt, lt), col, OpLte, lte);
      AppendNull(AppendIn(c, col, among), col, isNull)
    case Match(eq, ne, among, isNull) =>
      var c := AppendOpt(AppendOpt([], col, OpEq, eq), col, OpNe, ne);
      AppendNull(AppendIn(c, col, among), col, isNull)
    case Text(eq, ne, like, iLike, among, isNull) =>
      var c := AppendOpt(AppendOpt([], col, OpEq, eq), col, OpNe, ne);
      var c := AppendOpt(AppendOpt(c, col, OpLike, like), col, OpILike, iLike);
      AppendNull(AppendIn(c, col, among), col, isNull)
    case Search(query, config) =>
      if query.None? then [] else [FullText(col, if config == "" then "english" else config, query.value)]
  }

  function Wrap(conds: seq<Cond>): Option<Cond> {
    if |conds| == 0 then None else if |conds| == 1 then Some(conds[0]) else Some(Group(false, conds))
  }

  function Compile(plans: Plans, steps: seq<Step>, fields: seq<Field>): Option<Cond>
    decreases fields, 1
  {
    Wrap(Conds(plans, steps, fields))
  }

  function Conds(plans: Plans, steps: seq<Step>, fields: seq<Field>): seq<Cond>
    decreases fields, 0
  {
    if steps == [] || fields == [] then []
    else FieldConds(plans, steps[0], fields[0]) + Conds(plans, steps[1..], fields[1..])
  }

  function FieldConds(plans: Plans, s: Step, f: Field): seq<Cond>
    decreases f, 2
  {
    if s.PredicateStep? && f.HolderField? then Predicates(f.holder, s.col)
    else if s.ScalarStep? && f.ScalarField? then (if f.value.Some? then [Leaf(s.col, s.op, f.value.value)] else [])
    else if s.SliceStep? && f.SliceField? then (if |f.elements| > 0 then [Leaf(s.col, s.op, Arr(f.elements))] else [])
    else if s.GroupStep? && f.GroupField? && s.elem in plans then
      var children := Children(plans, plans[s.elem], f.members);
      if children == [] then [] else [Group(s.or, children)]
    else if s.ExistsStep? && f.ExistsField? && f.when.Some? && s.sub in plans then
      [Exists(!f.when.value, s.src, s.on, Compile(plans, plans[s.sub], f.filter.fields))]
    else []
  }

  function Children(plans: Plans, steps: seq<Step>, members: seq<Struct>): seq<Cond>
    decreases members, 0
  {
    if members == [] then []
    else
      var c := Compile(plans, steps, members[0].fields);
      (if c.Some? then [c.value] else []) + Children(plans, steps, members[1..])
  }


  /** One pass over the steps, collecting the conditions of the fields that are set. A group or EXISTS
      whose child type has no plan is skipped. */
  method Build(plans: Plans, steps: seq<Step>, v: Struct) returns (c: Option<Cond>)
    requires Planned(plans, false, steps, v.fields)
    ensures c == Compile(plans, steps, v.fields)
    decreases v, 1
  {
    hide FieldConds;
    hide Conds;
    hide PlannedField;
    hide Wrap;
    var conds: seq<Cond> := [];
    ghost var all := Conds(plans, steps, v.fields);
    assert steps[0..] == steps && v.fields[0..] == v.fields;
    assert [] + all == all;
    for i := 0 to |steps|
      invariant Planned(plans, false, steps[i..], v.fields[i..])
      invariant conds + Conds(plans, steps[i..], v.fields[i..]) == all
    {
      ghost var more := FieldConds(plans, steps[i], v.fields[i]);
      assert steps[i..][1..] == steps[i + 1..] && v.fields[i..][1..] == v.fields[i + 1..];
      CondsStep(plans, steps[i..], v.fields[i..], conds);
      assert v.fields[i] in v.fields;
      var added := BuildField(plans, steps[i], v.fields[i]);
      conds := conds + added;
    }
    CondsEnd(plans, conds);
    assert steps[|steps|..] == [] && v.fields[|steps|..] == [];
    c := Wrap(conds);
  }

  lemma CondsStep(plans: Plans, steps: seq<Step>, fields: seq<Field>, conds: seq<Cond>)
    requires steps != [] && fields != []
    ensures conds + Conds(plans, steps, fields) ==
      conds + FieldConds(plans, steps[0], fields[0]) + Conds(plans, steps[1..], fields[1..])
  {
    hide FieldConds;
  }

  lemma CondsEnd(plans: Plans, conds: seq<Cond>)
    ensures conds + Conds(plans, [], []) == conds
  {
  }

  method BuildField(plans: Plans, s: Step, f: Field) returns (conds: seq<Cond>)
    requires PlannedField(plans, false, s, f)
    ensures conds == FieldConds(plans, s, f)
    decreases f, 0
  {
    hide Compile;
    hide Children;
    hide Predicates;
    hide Planned;
    conds := [];
    if s.PredicateStep? {
      conds := Predicates(f.holder, s.col);
    } else if s.ScalarStep? {
      if f.value.Some? {
        conds := [Leaf(s.col, s.op, f.value.value)];
      }
    } else if s.SliceStep? {
      if |f.elements| > 0 {
        conds := [Leaf(s.col, s.op, Arr(f.elements))];
      }
    } else if s.GroupStep? {
      if s.elem in plans {
        var children := BuildMembers(plans, plans[s.elem], f.members);
        if |children| > 0 {
          conds := [Group(s.or, children)];
        }
      }
    } else {
      if f.when.Some? && s.sub in plans {
        var inner := Build(plans, plans[s.sub], f.filter);
        conds := [Exists(!f.when.value, s.src, s.on, inner)];
      }
    }
  }

  /** The conditions of the members that impose one. */
  method BuildMembers(plans: Plans, steps: seq<Step>, members: seq<Struct>) returns (children: seq<Cond>)
    requires PlannedMembers(plans, false, steps, members)
    ensures children == Children(plans, steps, members)
    decreases members, 0
  {
    hide Compile;
    hide Planned;
    hide Children;
    hide PlannedMembers;
    children := [];
    ghost var all := Children(plans, steps, members);
    assert members[0..] == members && [] + all == all;
    for j := 0 to |members|
      invariant PlannedMembers(plans, false, steps, members[j..])
      invariant children + Children(plans, steps, members[j..]) == all
    {
      assert members[j..][1..] == members[j + 1..] && members[j..][0] == members[j];
      assert members[j] in members;
      MembersStep(plans, steps, members[j..], children);
      var c := Build(plans, steps, members[j]);
      if c.Some? {
        children := children + [c.value];
      }
    }
    assert members[|members|..] == [];
    MembersEnd(plans, steps, children);
  }

  lemma MembersStep(plans: Plans, steps: seq<Step>, members: seq<Struct>, done: seq<Cond>)
    requires members != [] && PlannedMembers(plans, false, steps, members)
    ensures Planned(plans, false, steps, members[0].fields) && PlannedMembers(plans, false, steps, members[1..])
    ensures var c := Compile(plans, steps, members[0].fields);
      done + Children(plans, steps, members) ==
      (if c.Some? then done + [c.value] else done) + Children(plans, steps, members[1..])
  {
    hide Compile;
    hide Planned;
    var c := Compile(plans, steps, members[0].fields);
    Assoc(done, if c.Some? then [c.value] else [], Children(plans, steps, members[1..]));
    assert done + [] == done;
  }

  lemma MembersEnd(plans: Plans, steps: seq<Step>, done: seq<Cond>)
    ensures done + Children(plans, steps, []) == done
  {
  }

  // ---------------------------------------------------------------- the direct reading

  /** The conjunction of some truth values. */
  function All3(ts: seq<Tri>): Tri {
    if ts == [] then True else And3(ts[0], All3(ts[1..]))
  }

  /** An operator that is not set imposes nothing. */
  function SetOp(e: Env, o: Op, a: Value, v: Option<Value>): Tri {
    if v.None? then True else Compare(e, o, a, v.value)
  }

  function SetIn(e: Env, a: Value, vs: seq<Value>): Tri {
    if vs == [] then True else Member(e, a, vs)
  }

  function SetNull(a: Value, want: Option<bool>): Tri {
    if want.None? then True else FromBool(a.Null? == want.value)
  }

  /** What a holder says about the value `a` of its column. */
  function HolderReading(e: Env, h: Holder, a: Value): Tri {
    match h
    case Range(eq, ne, gt, lt, gte, lte, among, isNull) =>
      All3([SetOp(e, OpEq, a, eq), SetOp(e, OpNe, a, ne), SetOp(e, OpGt, a, gt), SetOp(e, OpGte, a, gte),
            SetOp(e, OpLt, a, lt), SetOp(e, OpLte, a, lte), SetIn(e, a, among), SetNull(a, isNull)])
    case Match(eq, ne, among, isNull) =>
      All3([SetOp(e, OpEq, a, eq), SetOp(e, OpNe, a, ne), SetIn(e, a, among), SetNull(a, isNull)])
    case Text(eq, ne, like, iLike, among, isNull) =>
      All3([SetOp(e, OpEq, a, eq), SetOp(e, OpNe, a, ne), SetOp(e, OpLike, a, like), SetOp(e, OpILike, a, iLike),
            SetIn(e, a, among), SetNull(a, isNull)])
    case Search(query, config) =>
      if query.None? then True else MatchMeaning(e, if config == "" then "english" else config, a, Str(query.value))
  }

  /** What a filter value says about a row: all of its fields. */
  function Reading(e: Env, plans: Plans, steps: seq<Step>, fields: seq<Field>, r: Row): Tri
    requires Planned(plans, true, steps, fields)
    decreases fields, 0
  {
    if fields == [] then True
    else And3(FieldReading(e, plans, steps[0], fields[0], r), Reading(e, plans, steps[1..], fields[1..], r))
  }

  function FieldReading(e: Env, plans: Plans, s: Step, f: Field, r: Row): Tri
    requires PlannedField(plans, true, s, f)
    decreases f, 1
  {
    match s
    case PredicateStep(col) => HolderReading(e, f.holder, Col(r, col))
    case ScalarStep(col, o) => if f.value.None? then True else LeafMeaning(e, o, Col(r, col), f.value.value)
    case SliceStep(col, o) =>
      if f.elements == [] then True
      else if o == OpIn then Member(e, Col(r, col), f.elements)
      else Not3(Member(e, Col(r, col), f.elements))
    case GroupStep(or, elem) =>
      if !MembersImpose(f.members) then True else GroupReading(e, plans, plans[elem], or, f.members, r)
    case ExistsStep(src, on, sub) =>
      if f.when.None? then True
      else
        var found := exists i :: (
            && 0 <= i < |e.source(src)|
            && And3(e.on(on, r + e.source(src)[i]),
                    Reading(e, plans, plans[sub], f.filter.fields, r + e.source(src)[i])) == True);
        FromBool(found == f.when.value)
  }

  /** AND or OR over the members that impose something. */
  function GroupReading(e: Env, plans: Plans, steps: seq<Step>, or: bool, members: seq<Struct>, r: Row): Tri
    requires PlannedMembers(plans, true, steps, members)
    decreases members, 0
  {
    if members == [] then FromBool(!or)
    else
      var rest := GroupReading(e, plans, steps, or, members[1..], r);
      if !Imposes(members[0].fields) then rest
      else
        var first := Reading(e, plans, steps, members[0].fields, r);
        if or then Or3(first, rest) else And3(first, rest)
  }

  // ---------------------------------------------------------------- holders

  lemma {:induction false} AllOfConcat(e: Env, a: seq<Cond>, b: seq<Cond>, r: Row)
    ensures AllOf(e, a + b, r) == And3(AllOf(e, a, r), AllOf(e, b, r))
  {
    hide Eval;
    if a == [] {
      assert a + b == b;
    } else {
      assert (a + b)[1..] == a[1..] + b;
      AllOfConcat(e, a[1..], b, r);
    }
  }

  lemma AllOfAppend(e: Env, c: seq<Cond>, x: Cond, r: Row)
    ensures AllOf(e, c + [x], r) == And3(AllOf(e, c, r), Eval(e, x, r))
  {
    hide Eval;
    AllOfConcat(e, c, [x], r);
    assert [x][1..] == [];
    assert AllOf(e, [x], r) == And3(Eval(e, x, r), AllOf(e, [x][1..], r));
  }

  lemma OptMeans(e: Env, c: seq<Cond>, col: string, o: Op, v: Option<Value>, r: Row)
    requires !IsList(o) && !IsTest(o)
    ensures AllOf(e, AppendOpt(c, col, o, v), r) == And3(AllOf(e, c, r), SetOp(e, o, Col(r, col), v))
  {
    hide Eval;
    hide AllOf;
    hide Compare;
    if v.Some? {
      AllOfAppend(e, c, Leaf(col, o, v.value), r);
      LeafEval(e, col, o, v.value, r);
    }
  }

  lemma InMeans(e: Env, c: seq<Cond>, col: string, vs: seq<Value>, r: Row)
    ensures AllOf(e, AppendIn(c, col, vs), r) == And3(AllOf(e, c, r), SetIn(e, Col(r, col), vs))
  {
    hide Eval;
    hide AllOf;
    hide Member;
    if |vs| > 0 {
      AllOfAppend(e, c, Leaf(col, OpIn, Arr(vs)), r);
      LeafEval(e, col, OpIn, Arr(vs), r);
    }
  }

  lemma NullMeans(e: Env, c: seq<Cond>, col: string, want: Option<bool>, r: Row)
    ensures AllOf(e, AppendNull(c, col, want), r) == And3(AllOf(e, c, r), SetNull(Col(r, col), want))
  {
    hide Eval;
    hide AllOf;
    if want.Some? {
      var o := if want.value then OpNull else OpNNull;
      AllOfAppend(e, c, Leaf(col, o, Null), r);
      LeafEval(e, col, o, Null, r);
    }
  }

  lemma {:induction false} All3Append(ts: seq<Tri>, t: Tri)
    ensures All3(ts + [t]) == And3(All3(ts), t)
  {
    if ts == [] {
      assert [t][1..] == [] && [] + [t] == [t];
    } else {
      assert (ts + [t])[1..] == ts[1..] + [t];
      All3Append(ts[1..], t);
    }
  }

  /** The tail every holder shares: IN, then the NULL test. */
  lemma SharedTail(e: Env, c: seq<Cond>, ts: seq<Tri>, col: string, among: seq<Value>, isNull: Option<bool>, r: Row)
    requires AllOf(e, c, r) == All3(ts)
    ensures AllOf(e, AppendNull(AppendIn(c, col, among), col, isNull), r) ==
      All3(ts + [SetIn(e, Col(r, col), among)] + [SetNull(Col(r, col), isNull)])
  {
    hide AllOf;
    hide All3;
    hide SetIn;
    hide SetNull;
    var i, n := SetIn(e, Col(r, col), among), SetNull(Col(r, col), isNull);
    InMeans(e, c, col, among, r);
    NullMeans(e, AppendIn(c, col, among), col, isNull, r);
    All3Append(ts, i);
    All3Append(ts + [i], n);
  }

  /** The head every holder shares: equality and inequality. */
  lemma SharedHead(e: Env, col: string, eq: Option<Value>, ne: Option<Value>, r: Row)
    ensures AllOf(e, AppendOpt(AppendOpt([], col, OpEq, eq), col, OpNe, ne), r) ==
      All3([SetOp(e, OpEq, Col(r, col), eq)] + [SetOp(e, OpNe, Col(r, col), ne)])
  {
    hide SetOp;
    hide Eval;
    var x, y := SetOp(e, OpEq, Col(r, col), eq), SetOp(e, OpNe, Col(r, col), ne);
    OptMeans(e, [], col, OpEq, eq, r);
    OptMeans(e, AppendOpt([], col, OpEq, eq), col, OpNe, ne, r);
    All3Append([], x);
    assert [] + [x] == [x];
    All3Append([x], y);
  }

  lemma TwoMore(e: Env, c: seq<Cond>, ts: seq<Tri>, col: string, o: Op, v: Option<Value>, p: Op, w: Option<Value>,
      r: Row)
    requires AllOf(e, c, r) == All3(ts) && !IsList(o) && !IsTest(o) && !IsList(p) && !IsTest(p)
    ensures AllOf(e, AppendOpt(AppendOpt(c, col, o, v), col, p, w), r) ==
      All3(ts + [SetOp(e, o, Col(r, col), v)] + [SetOp(e, p, Col(r, col), w)])
  {
    hide SetOp;
    hide AllOf;
    hide All3;
    OptMeans(e, c, col, o, v, r);
    OptMeans(e, AppendOpt(c, col, o, v), col, p, w, r);
    All3Append(ts, SetOp(e, o, Col(r, col), v));
    All3Append(ts + [SetOp(e, o, Col(r, col), v)], SetOp(e, p, Col(r, col), w));
  }

  /** A holder's conditions, joined by AND, mean what the holder says about its column. */
  lemma HolderMeans(e: Env, h: Holder, col: string, r: Row)
    ensures AllOf(e, Predicates(h, col), r) == HolderReading(e, h, Col(r, col))
  {
    hide SetOp;
    hide SetIn;
    hide SetNull;
    hide AppendOpt;
    hide AppendIn;
    hide AppendNull;
    hide AllOf;
    hide All3;
    var a := Col(r, col);
    match h
    case Range(eq, ne, gt, lt, gte, lte, among, isNull) =>
      var c2 := AppendOpt(AppendOpt([], col, OpEq, eq), col, OpNe, ne);
      var c4 := AppendOpt(AppendOpt(c2, col, OpGt, gt), col, OpGte, gte);
      var c6 := AppendOpt(AppendOpt(c4, col, OpLt, lt), col, OpLte, lte);
      var t2 := [SetOp(e, OpEq, a, eq)] + [SetOp(e, OpNe, a, ne)];
      var t4 := t2 + [SetOp(e, OpGt, a, gt)] + [SetOp(e, OpGte, a, gte)];
      var t6 := t4 + [SetOp(e, OpLt, a, lt)] + [SetOp(e, OpLte, a, lte)];
      SharedHead(e, col, eq, ne, r);
      TwoMore(e, c2, t2, col, OpGt, gt, OpGte, gte, r);
      TwoMore(e, c4, t4, col, OpLt, lt, OpLte, lte, r);
      SharedTail(e, c6, t6, col, among, isNull, r);
      assert t6 + [SetIn(e, a, among)] + [SetNull(a, isNull)] ==
        [SetOp(e, OpEq, a, eq), SetOp(e, OpNe, a, ne), SetOp(e, OpGt, a, gt), SetOp(e, OpGte, a, gte),
         SetOp(e, OpLt, a, lt), SetOp(e, OpLte, a, lte), SetIn(e, a, among), SetNull(a, isNull)];
    case Match(eq, ne, among, isNull) =>
      var c2 := AppendOpt(AppendOpt([], col, OpEq, eq), col, OpNe, ne);
      var t2 := [SetOp(e, OpEq, a, eq)] + [SetOp(e, OpNe, a, ne)];
      SharedHead(e, col, eq, ne, r);
      SharedTail(e, c2, t2, col, among, isNull, r);
      assert t2 + [SetIn(e, a, among)] + [SetNull(a, isNull)] ==
        [SetOp(e, OpEq, a, eq), SetOp(e, OpNe, a, ne), SetIn(e, a, among), SetNull(a, isNull)];
    case Text(eq, ne, like, iLike, among, isNull) =>
      var c2 := AppendOpt(AppendOpt([], col, OpEq, eq), col, OpNe, ne);
      var c4 := AppendOpt(AppendOpt(c2, col, OpLike, like), col, OpILike, iLike);
      var t2 := [SetOp(e, OpEq, a, eq)] + [SetOp(e, OpNe, a, ne)];
      var t4 := t2 + [SetOp(e, OpLike, a, like)] + [SetOp(e, OpILike, a, iLike)];
      SharedHead(e, col, eq, ne, r);
      TwoMore(e, c2, t2, col, OpLike, like, OpILike, iLike, r);
      SharedTail(e, c4, t4, col, among, isNull, r);
      assert t4 + [SetIn(e, a, among)] + [SetNull(a, isNull)] ==
        [SetOp(e, OpEq, a, eq), SetOp(e, OpNe, a, ne), SetOp(e, OpLike, a, like), SetOp(e, OpILike, a, iLike),
         SetIn(e, a, among), SetNull(a, isNull)];
    case Search(query, config) =>
      if query.Some? {
        OneMeans(e, FullText(col, if config == "" then "english" else config, query.value), r);
        SearchEval(e, col, if config == "" then "english" else config, query.value, r);
      } else {
        NoneMeans(e, r);
      }
  }

  lemma OneMeans(e: Env, c: Cond, r: Row)
    ensures AllOf(e, [c], r) == Eval(e, c, r)
  {
    hide Eval;
    assert [c][1..] == [];
    assert AllOf(e, [c], r) == And3(Eval(e, c, r), AllOf(e, [c][1..], r));
  }

  lemma NoneMeans(e: Env, r: Row)
    ensures AllOf(e, [], r) == True
  {
  }

  lemma SearchEval(e: Env, col: string, config: string, query: string, r: Row)
    ensures Eval(e, FullText(col, config, query), r) == MatchMeaning(e, config, Col(r, col), Str(query))
  {
  }

  predicate Plain(c: seq<Cond>) {
    forall i :: 0 <= i < |c| ==> c[i].Leaf? || c[i].FullText?
  }

  lemma AppendsPlain(c: seq<Cond>, col: string, o: Op, v: Option<Value>, among: seq<Value>, want: Option<bool>)
    requires Plain(c)
    ensures Plain(AppendOpt(c, col, o, v)) && (AppendOpt(c, col, o, v) == [] <==> c == [] && v.None?)
    ensures Plain(AppendIn(c, col, among)) && (AppendIn(c, col, among) == [] <==> c == [] && among == [])
    ensures Plain(AppendNull(c, col, want)) && (AppendNull(c, col, want) == [] <==> c == [] && want.None?)
  {
  }

  /** A holder contributes conditions exactly when something is set in it, and only plain ones. */
  lemma HolderConds(h: Holder, col: string)
    ensures Predicates(h, col) != [] <==> HolderSet(h)
    ensures Plain(Predicates(h, col))
  {
    hide AppendOpt;
    hide AppendIn;
    hide AppendNull;
    match h
    case Range(eq, ne, gt, lt, gte, lte, among, isNull) =>
      var c2 := PlainHead(col, eq, ne);
      var c4 := PlainTwo(c2, col, OpGt, gt, OpGte, gte);
      var c6 := PlainTwo(c4, col, OpLt, lt, OpLte, lte);
      PlainTail(c6, col, among, isNull);
    case Match(eq, ne, among, isNull) =>
      var c2 := PlainHead(col, eq, ne);
      PlainTail(c2, col, among, isNull);
    case Text(eq, ne, like, iLike, among, isNull) =>
      var c2 := PlainHead(col, eq, ne);
      var c4 := PlainTwo(c2, col, OpLike, like, OpILike, iLike);
      PlainTail(c4, col, among, isNull);
    case Search(query, config) =>
  }

  lemma PlainHead(col: string, eq: Option<Value>, ne: Option<Value>) returns (c: seq<Cond>)
    ensures c == AppendOpt(AppendOpt([], col, OpEq, eq), col, OpNe, ne)
    ensures Plain(c) && (c == [] <==> eq.None? && ne.None?)
  {
    c := PlainTwo([], col, OpEq, eq, OpNe, ne);
  }

  lemma PlainTwo(c: seq<Cond>, col: string, o: Op, v: Option<Value>, p: Op, w: Option<Value>) returns (d: seq<Cond>)
    requires Plain(c)
    ensures d == AppendOpt(AppendOpt(c, col, o, v), col, p, w)
    ensures Plain(d) && (d == [] <==> c == [] && v.None? && w.None?)
  {
    AppendsPlain(c, col, o, v, [], None);
    AppendsPlain(AppendOpt(c, col, o, v), col, p, w, [], None);
    d := AppendOpt(AppendOpt(c, col, o, v), col, p, w);
  }

  lemma PlainTail(c: seq<Cond>, col: string, among: seq<Value>, isNull: Option<bool>)
    requires Plain(c)
    ensures var d := AppendNull(AppendIn(c, col, among), col, isNull);
      Plain(d) && (d == [] <==> c == [] && among == [] && isNull.None?)
  {
    AppendsPlain(c, col, OpEq, None, among, None);
    AppendsPlain(AppendIn(c, col, among), col, OpEq, None, [], isNull);
  }

  lemma PlainSolid(c: seq<Cond>)
    requires Plain(c)
    ensures forall x :: x in c ==> Solid(x)
  {
  }

  // ---------------------------------------------------------------- whole values

  predicate Solid(c: Cond) {
    Clean(c) && !Vacuous(c)
  }

  lemma WrapMeans(e: Env, conds: seq<Cond>, r: Row)
    ensures Wrap(conds).None? ==> AllOf(e, conds, r) == True
    ensures Wrap(conds).Some? ==> Eval(e, Wrap(conds).value, r) == AllOf(e, conds, r)
  {
    if |conds| == 0 {
      NoneMeans(e, r);
    } else if |conds| == 1 {
      assert conds == [conds[0]];
      OneMeans(e, conds[0], r);
    }
  }

  lemma WrapSolid(conds: seq<Cond>)
    requires forall c :: c in conds ==> Solid(c)
    ensures Wrap(conds).Some? ==> Solid(Wrap(conds).value)
  {
    forall i | 0 <= i < |conds|
      ensures Clean(conds[i]) && !Vacuous(conds[i])
    {
      assert conds[i] in conds;
      assert Solid(conds[i]);
    }
  }

  /** The compiled tree is well formed at every level, and there is one exactly when something is set. */
  lemma {:induction false} CompileSolid(plans: Plans, steps: seq<Step>, fields: seq<Field>)
    requires Planned(plans, true, steps, fields)
    ensures Compile(plans, steps, fields).None? <==> !Imposes(fields)
    ensures Compile(plans, steps, fields).Some? ==> Solid(Compile(plans, steps, fields).value)
    decreases fields, 2
  {
    hide Solid;
    CondsSolid(plans, steps, fields);
    WrapSolid(Conds(plans, steps, fields));
  }

  lemma {:induction false} CondsSolid(plans: Plans, steps: seq<Step>, fields: seq<Field>)
    requires Planned(plans, true, steps, fields)
    ensures Conds(plans, steps, fields) == [] <==> !Imposes(fields)
    ensures forall c :: c in Conds(plans, steps, fields) ==> Solid(c)
    decreases fields, 1
  {
    hide Solid;
    hide FieldConds;
    hide FieldImposes;
    hide PlannedField;
    if fields != [] {
      FieldSolid(plans, steps[0], fields[0]);
      CondsSolid(plans, steps[1..], fields[1..]);
    }
  }

  lemma {:induction false} FieldSolid(plans: Plans, s: Step, f: Field)
    requires PlannedField(plans, true, s, f)
    ensures FieldConds(plans, s, f) == [] <==> !FieldImposes(f)
    ensures forall c :: c in FieldConds(plans, s, f) ==> Solid(c)
    decreases f, 2
  {
    hide HolderSet;
    hide Predicates;
    hide Compile;
    hide Imposes;
    hide MembersImpose;
    hide Planned;
    if s.PredicateStep? {
      HolderConds(f.holder, s.col);
      PlainSolid(Predicates(f.holder, s.col));
    } else if s.GroupStep? && s.elem in plans {
      ChildrenSolid(plans, plans[s.elem], f.members);
      GroupSolid(s.or, Children(plans, plans[s.elem], f.members));
      hide Children;
    } else if s.ExistsStep? && s.sub in plans {
      CompileSolid(plans, plans[s.sub], f.filter.fields);
    }
  }

  lemma GroupSolid(or: bool, children: seq<Cond>)
    requires forall c :: c in children ==> Solid(c)
    ensures children != [] ==> Solid(Group(or, children))
  {
    forall i | 0 <= i < |children|
      ensures Clean(children[i]) && !Vacuous(children[i])
    {
      assert children[i] in children;
      assert Solid(children[i]);
    }
  }

  lemma {:induction false} ChildrenSolid(plans: Plans, steps: seq<Step>, members: seq<Struct>)
    requires PlannedMembers(plans, true, steps, members)
    ensures Children(plans, steps, members) == [] <==> !MembersImpose(members)
    ensures forall c :: c in Children(plans, steps, members) ==> Solid(c)
    decreases members, 0
  {
    hide Solid;
    hide Compile;
    hide Imposes;
    hide Planned;
    if members != [] {
      CompileSolid(plans, steps, members[0].fields);
      ChildrenSolid(plans, steps, members[1..]);
    }
  }

  /** The compiled condition has the meaning of the direct reading on every row, and no condition means
      that the value says nothing. */
  lemma {:induction false} CompileMeans(e: Env, plans: Plans, steps: seq<Step>, fields: seq<Field>, r: Row)
    requires Planned(plans, true, steps, fields)
    ensures var c := Compile(plans, steps, fields);
      Reading(e, plans, steps, fields, r) == if c.None? then True else Eval(e, c.value, r)
    decreases fields, 2
  {
    hide Eval;
    hide Conds;
    hide Reading;
    hide Wrap;
    CondsMean(e, plans, steps, fields, r);
    WrapMeans(e, Conds(plans, steps, fields), r);
  }

  lemma {:induction false} CondsMean(e: Env, plans: Plans, steps: seq<Step>, fields: seq<Field>, r: Row)
    requires Planned(plans, true, steps, fields)
    ensures AllOf(e, Conds(plans, steps, fields), r) == Reading(e, plans, steps, fields, r)
    decreases fields, 1
  {
    hide Eval;
    hide FieldConds;
    hide FieldReading;
    hide PlannedField;
    if fields == [] {
      NoneMeans(e, r);
    } else {
      FieldMeans(e, plans, steps[0], fields[0], r);
      CondsMean(e, plans, steps[1..], fields[1..], r);
      AllOfConcat(e, FieldConds(plans, steps[0], fields[0]), Conds(plans, steps[1..], fields[1..]), r);
      hide AllOf;
    }
  }

  lemma {:induction false} FieldMeans(e: Env, plans: Plans, s: Step, f: Field, r: Row)
    requires PlannedField(plans, true, s, f)
    ensures AllOf(e, FieldConds(plans, s, f), r) == FieldReading(e, plans, s, f, r)
    decreases f, 2
  {
    hide Predicates;
    hide HolderReading;
    hide Compile;
    hide Children;
    hide Planned;
    hide PlannedMembers;
    hide AllOf;
    hide AnyOf;
    hide Eval;
    hide Reading;
    hide GroupReading;
    hide MembersImpose;
    hide LeafMeaning;
    hide Member;
    NoneMeans(e, r);
    if s.PredicateStep? {
      HolderMeans(e, f.holder, s.col, r);
    } else if s.ScalarStep? {
      if f.value.Some? {
        OneMeans(e, Leaf(s.col, s.op, f.value.value), r);
        LeafEval(e, s.col, s.op, f.value.value, r);
      }
    } else if s.SliceStep? {
      SliceMeans(e, s.col, s.op, f.elements, r);
    } else if s.GroupStep? && s.elem !in plans {
    } else if s.GroupStep? {
      var children := Children(plans, plans[s.elem], f.members);
      ChildrenSolid(plans, plans[s.elem], f.members);
      ChildrenMean(e, plans, plans[s.elem], s.or, f.members, r);
      if children != [] {
        OneMeans(e, Group(s.or, children), r);
        GroupEval(e, s.or, children, r);
      }
    } else {
      ExistsMeans(e, plans, s, f, r);
    }
  }

  lemma SliceMeans(e: Env, col: string, o: Op, vs: seq<Value>, r: Row)
    requires IsList(o)
    ensures vs != [] ==>
      AllOf(e, [Leaf(col, o, Arr(vs))], r) ==
        if o == OpIn then Member(e, Col(r, col), vs) else Not3(Member(e, Col(r, col), vs))
  {
    hide AllOf;
    hide Eval;
    hide Member;
    OneMeans(e, Leaf(col, o, Arr(vs)), r);
    LeafEval(e, col, o, Arr(vs), r);
  }

  lemma GroupEval(e: Env, or: bool, children: seq<Cond>, r: Row)
    ensures Eval(e, Group(or, children), r) == if or then AnyOf(e, children, r) else AllOf(e, children, r)
  {
  }

  lemma {:induction false} ChildrenMean(e: Env, plans: Plans, steps: seq<Step>, or: bool, members: seq<Struct>, r: Row)
    requires PlannedMembers(plans, true, steps, members)
    ensures var children := Children(plans, steps, members);
      (if or then AnyOf(e, children, r) else AllOf(e, children, r)) == GroupReading(e, plans, steps, or, members, r)
    decreases members, 0
  {
    hide Eval;
    hide Compile;
    hide Planned;
    hide Reading;
    hide Imposes;
    if members != [] {
      var c, more := Compile(plans, steps, members[0].fields), Children(plans, steps, members[1..]);
      CompileSolid(plans, steps, members[0].fields);
      CompileMeans(e, plans, steps, members[0].fields, r);
      ChildrenMean(e, plans, steps, or, members[1..], r);
      if c.Some? {
        assert ([c.value] + more)[1..] == more;
      } else {
        assert [] + more == more;
      }
    }
  }

  lemma {:induction false} ExistsMeans(e: Env, plans: Plans, s: Step, f: Field, r: Row)
    requires s.ExistsStep? && PlannedField(plans, true, s, f)
    ensures AllOf(e, FieldConds(plans, s, f), r) == FieldReading(e, plans, s, f, r)
    decreases f, 1
  {
    hide Compile;
    hide Planned;
    hide Reading;
    if f.when.Some? {
      var inner := Compile(plans, plans[s.sub], f.filter.fields);
      var c := Exists(!f.when.value, s.src, s.on, inner);
      forall i | 0 <= i < |e.source(s.src)|
        ensures (if inner.None? then True else Eval(e, inner.value, r + e.source(s.src)[i])) ==
          Reading(e, plans, plans[s.sub], f.filter.fields, r + e.source(s.src)[i])
      {
        CompileMeans(e, plans, plans[s.sub], f.filter.fields, r + e.source(s.src)[i]);
      }
      OneMeans(e, c, r);
    } else {
      NoneMeans(e, r);
    }
  }

  // ---------------------------------------------------------------- children without a plan

  /** The value with its groups and EXISTS fields of unplanned types cleared, at every level. */
  function Emptied(plans: Plans, steps: seq<Step>, fields: seq<Field>): seq<Field>
    decreases fields, 0
  {
    if steps == [] || fields == [] then []
    else [EmptiedField(plans, steps[0], fields[0])] + Emptied(plans, steps[1..], fields[1..])
  }

  function EmptiedField(plans: Plans, s: Step, f: Field): Field
    decreases f, 1
  {
    if s.GroupStep? && f.GroupField? then
      GroupField(if s.elem in plans then EmptiedMembers(plans, plans[s.elem], f.members) else [])
    else if s.ExistsStep? && f.ExistsField? then
      if s.sub in plans then ExistsField(f.when, Struct(Emptied(plans, plans[s.sub], f.filter.fields)))
      else ExistsField(None, f.filter)
    else f
  }

  function EmptiedMembers(plans: Plans, steps: seq<Step>, members: seq<Struct>): seq<Struct>
    decreases members, 0
  {
    if members == [] then []
    else [Struct(Emptied(plans, steps, members[0].fields))] + EmptiedMembers(plans, steps, members[1..])
  }

  /** Clearing them makes the value fit for the theorems above, and does not change what it compiles to. */
  lemma {:induction false} EmptiedCompiles(plans: Plans, steps: seq<Step>, fields: seq<Field>)
    requires Planned(plans, false, steps, fields)
    ensures Planned(plans, true, steps, Emptied(plans, steps, fields))
    ensures Conds(plans, steps, Emptied(plans, steps, fields)) == Conds(plans, steps, fields)
    decreases fields, 0
  {
    hide FieldConds;
    hide EmptiedField;
    hide PlannedField;
    if fields != [] {
      var more := Emptied(plans, steps[1..], fields[1..]);
      EmptiedFieldCompiles(plans, steps[0], fields[0]);
      EmptiedCompiles(plans, steps[1..], fields[1..]);
      assert ([EmptiedField(plans, steps[0], fields[0])] + more)[1..] == more;
    }
  }

  lemma {:induction false} EmptiedFieldCompiles(plans: Plans, s: Step, f: Field)
    requires PlannedField(plans, false, s, f)
    ensures PlannedField(plans, true, s, EmptiedField(plans, s, f))
    ensures FieldConds(plans, s, EmptiedField(plans, s, f)) == FieldConds(plans, s, f)
    decreases f, 1
  {
    hide Predicates;
    hide Planned;
    hide PlannedMembers;
    hide Emptied;
    hide EmptiedMembers;
    hide Conds;
    hide Children;
    if s.GroupStep? && s.elem in plans {
      EmptiedMembersCompile(plans, plans[s.elem], f.members);
    } else if s.ExistsStep? && s.sub in plans {
      EmptiedCompiles(plans, plans[s.sub], f.filter.fields);
    }
  }

  lemma {:induction false} EmptiedMembersCompile(plans: Plans, steps: seq<Step>, members: seq<Struct>)
    requires PlannedMembers(plans, false, steps, members)
    ensures PlannedMembers(plans, true, steps, EmptiedMembers(plans, steps, members))
    ensures Children(plans, steps, EmptiedMembers(plans, steps, members)) == Children(plans, steps, members)
    decreases members, 0
  {
    hide Planned;
    hide Emptied;
    hide Conds;
    if members != [] {
      var first, more := Struct(Emptied(plans, steps, members[0].fields)), EmptiedMembers(plans, steps, members[1..]);
      EmptiedCompiles(plans, steps, members[0].fields);
      EmptiedMembersCompile(plans, steps, members[1..]);
      assert ([first] + more)[1..] == more;
    }
  }

  /** What the compiler makes of any value, whether or not all child types have plans: the condition means
      the value with its unplanned groups cleared, and there is none exactly when that imposes nothing. */
  lemma UnplannedMeans(e: Env, plans: Plans, steps: seq<Step>, fields: seq<Field>, r: Row)
    requires Planned(plans, false, steps, fields)
    ensures var c, left := Compile(plans, steps, fields), Emptied(plans, steps, fields);
      && Planned(plans, true, steps, left)
      && (c.None? <==> !Imposes(left))
      && Reading(e, plans, steps, left, r) == if c.None? then True else Eval(e, c.value, r)
  {
    hide Conds;
    hide Reading;
    hide Eval;
    hide Imposes;
    hide Wrap;
    hide Emptied;
    EmptiedCompiles(plans, steps, fields);
    CompileSolid(plans, steps, Emptied(plans, steps, fields));
    CompileMeans(e, plans, steps, Emptied(plans, steps, fields), r);
  }

  /** A filter that imposes something is lost entirely exactly when all of it sits in unplanned groups. */
  lemma FilterLost(plans: Plans, steps: seq<Step>, fields: seq<Field>)
    requires Planned(plans, false, steps, fields)
    ensures Compile(plans, steps, fields).None? && Imposes(fields) <==>
      Imposes(fields) && !Imposes(Emptied(plans, steps, fields))
    ensures Planned(plans, true, steps, fields) ==> !(Compile(plans, steps, fields).None? && Imposes(fields))
  {
    hide Conds;
    hide Imposes;
    hide Wrap;
    hide Emptied;
    EmptiedCompiles(plans, steps, fields);
    CompileSolid(plans, steps, Emptied(plans, steps, fields));
    if Planned(plans, true, steps, fields) {
      CompileSolid(plans, steps, fields);
    }
  }

  /** The smallest case: one group of an unplanned type, whatever its members say. */
  lemma UnplannedGroupDropped(plans: Plans, or: bool, elem: TypeName, members: seq<Struct>)
    requires elem !in plans
    ensures Compile(plans, [GroupStep(or, elem)], [GroupField(members)]).None?
  {
    var steps, fields := [GroupStep(or, elem)], [GroupField(members)];
    assert steps[1..] == [] && fields[1..] == [];
    assert Conds(plans, steps[1..], fields[1..]) == [];
    assert Conds(plans, steps, fields) == FieldConds(plans, steps[0], fields[0]) + [];
  }
}
