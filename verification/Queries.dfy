/**
  The fields of a query and the text and arguments of its whole statements. Every clause
  binds its arguments through its own function; the theorems say that they agree on one numbering.
 */
module Queries {
  import opened Conditions
  import opened Cursors
  import opened Dialects
  import opened Logic
  import opened Orders
  import opened Sql
  import opened Wrappers

  /** The rendered FROM target, with what mutations need to know about it. */
  datatype SourceSpec = SourceSpec(text: string, alias: string, joins: nat)

  datatype SoftScope = ScopeActive | ScopeWithDeleted | ScopeOnlyDeleted

  datatype PagingParams = PagingParams(
    before: Option<int>, after: Option<int>, first: Option<int>, last: Option<int>, includeTotal: bool)

  datatype SeekParams = SeekParams(after: Cursor, before: Cursor, size: int, includeTotal: bool)

  datatype SeekState = SeekState(cursor: Cursor, before: bool, size: int, total: bool)

  datatype Failure =
    | SeekBothWays | NoOrderBy | BadSize | RelevanceSeek | NoKeyField(col: string) | InvalidCursor | CursorArity
    | RelevanceUnsupported | NotSeeking | QueryFailed | KeyNotEncodable
    | NotSingleTable | NoFilter | NothingToSet | PagingPanic

  /** The fields of a query, as a value. */
  datatype Spec = Spec(
    from: Option<SourceSpec>, columns: seq<string>, cond: Option<Cond>, groupBy: seq<string>, having: Option<Cond>,
    order: seq<OrderTerm>, paging: PagingParams, seek: Option<SeekState>, dialect: Dialect, unfiltered: bool,
    softDeleteCol: string, softScope: SoftScope, err: Option<Failure>)

  /** The query names a table, and the database has it. */
  predicate Known(s: Spec, db: Db) {
    s.from.Some? && s.from.value.text in db
  }

  /** The rows of the table that the query names. */
  function Stored(s: Spec, db: Db): seq<Row> {
    if Known(s, db) then db[s.from.value.text] else []
  }

  datatype Statement = Statement(text: seq<Token>, args: seq<Value>)

  /** A strings.Builder of tokens. */
  class TextBuilder {
    var ts: seq<Token>

    constructor ()
      ensures ts == []
    {
      ts := [];
    }
  }

  // ---------------------------------------------------------------- the soft-delete scope

  predicate Scoped(s: Spec) {
    s.softDeleteCol != "" && s.softScope != ScopeWithDeleted
  }

  function ScopeCond(s: Spec): Cond {
    if s.softScope == ScopeOnlyDeleted then IsNotNull(s.softDeleteCol) else IsNull(s.softDeleteCol)
  }

  /** The filter together with the soft-delete scope. */
  function EffectiveCond(s: Spec): Option<Cond> {
    if !Scoped(s) then s.cond
    else if s.cond.None? then Some(ScopeCond(s))
    else Some(And([s.cond, Some(ScopeCond(s))]))
  }

  /** The rows the current scope admits. */
  predicate Admits(s: Spec, r: Row) {
    s.softDeleteCol == "" ||
    match s.softScope
    case ScopeWithDeleted => true
    case ScopeActive => Col(r, s.softDeleteCol).Null?
    case ScopeOnlyDeleted => !Col(r, s.softDeleteCol).Null?
  }

  /** The filter renders as well-formed SQL, alone and next to a scope. */
  predicate WellFormedFilter(s: Spec) {
    CleanFilter(s.cond) && (Scoped(s) && s.cond.Some? ==> !Vacuous(s.cond.value))
  }

  /** Whatever setters led here, the effective filter keeps exactly the rows that satisfy both the
      filter and the scope, and it is clean. */
  lemma ScopeApplies(e: Env, s: Spec, r: Row)
    requires WellFormedFilter(s)
    ensures CleanFilter(EffectiveCond(s))
    ensures Holds(e, EffectiveCond(s), r) <==> Holds(e, s.cond, r) && Admits(s, r)
  {
    if Scoped(s) {
      ScopeMeans(e, s, r);
      if s.cond.Some? {
        hide Eval;
        hide And;
        var both := [s.cond.value, ScopeCond(s)];
        BothPresent(s.cond.value, ScopeCond(s));
        BothHold(e, s.cond.value, ScopeCond(s), r);
        assert both[0] == s.cond.value && both[1] == ScopeCond(s);
        assert Clean(Group(false, both)) && !Vacuous(Group(false, both));
      }
    }
  }

  /** What that asks of the filter is exactly what the effective filter needs. */
  lemma WellFormedExactly(s: Spec)
    ensures WellFormedFilter(s) <==> CleanFilter(EffectiveCond(s))
  {
    if Scoped(s) && s.cond.Some? {
      var both := [s.cond.value, ScopeCond(s)];
      BothPresent(s.cond.value, ScopeCond(s));
      hide And;
      assert both[0] == s.cond.value && both[1] == ScopeCond(s);
      assert Clean(ScopeCond(s)) && !Vacuous(ScopeCond(s));
      assert Clean(Group(false, both)) <==> Clean(s.cond.value) && !Vacuous(s.cond.value);
    }
  }

  lemma ScopeMeans(e: Env, s: Spec, r: Row)
    requires Scoped(s)
    ensures Eval(e, ScopeCond(s), r) == True <==> Admits(s, r)
    ensures Clean(ScopeCond(s)) && !Vacuous(ScopeCond(s))
  {
  }

  lemma BothPresent(a: Cond, b: Cond)
    ensures And([Some(a), Some(b)]) == Group(false, [a, b])
  {
    var conds := [Some(a), Some(b)];
    assert conds[1..] == [Some(b)];
    assert conds[1..][1..] == [];
    assert Present(conds[1..]) == [b];
    assert Present(conds) == [a, b];
  }

  lemma BothHold(e: Env, a: Cond, b: Cond, r: Row)
    ensures Eval(e, Group(false, [a, b]), r) == True <==> Eval(e, a, r) == True && Eval(e, b, r) == True
  {
    var both := [a, b];
    AllOfTrue(e, both, r);
    assert both[0] == a && both[1] == b;
  }

  // ---------------------------------------------------------------- clauses

  function ProjectionText(s: Spec): seq<Token> {
    if s.columns != [] then [Projection(s.columns, "")]
    else if s.from.Some? then [Projection([], s.from.value.alias)]
    else [Projection([], "")]
  }

  function FromText(s: Spec): seq<Token> {
    [FromWord, Source(if s.from.None? then "" else s.from.value.text)]
  }

  function WhereText(where: seq<Token>): seq<Token> {
    if where == [] then [] else [WhereWord] + where
  }

  function ColumnsText(cols: seq<string>): seq<Token> {
    if cols == [] then []
    else if |cols| == 1 then [Ident(cols[0])]
    else [Ident(cols[0]), Comma] + ColumnsText(cols[1..])
  }

  function GroupByText(cols: seq<string>): seq<Token> {
    if cols == [] then [] else [GroupByWord] + ColumnsText(cols)
  }

  function HavingText(m: Marker, k: nat, having: Option<Cond>): seq<Token> {
    var text := FilterText(m, k, having);
    if text == [] then [] else [HavingWord] + text
  }

  function LimitText(m: Marker, d: Dialect, k: nat, limit: int, offset: int): seq<Token> {
    if limit > 0 then [LimitWord, Place(m, k + 1), OffsetWord, Place(m, k + 2)]
    else if offset > 0 then
      (if AllRowsLimit(d).Some? then [LimitWord, AllRows(AllRowsLimit(d).value)] else []) +
      [OffsetWord, Place(m, k + 1)]
    else []
  }

  function LimitArgs(limit: int, offset: int): seq<Value> {
    if limit > 0 then [Int(limit + 1), Int(offset)] else if offset > 0 then [Int(offset)] else []
  }

  // ---------------------------------------------------------------- statements

  function SelectHead(s: Spec, window: bool, where: seq<Token>): seq<Token> {
    [SelectWord] + ProjectionText(s) + (if window then [WindowTotal] else []) + FromText(s) + WhereText(where)
  }

  /** Everything between WHERE and LIMIT; `k` is the number of WHERE arguments. */
  function MiddleText(m: Marker, s: Spec, k: nat, order: seq<OrderTerm>): seq<Token> {
    GroupByText(s.groupBy) + HavingText(m, k, s.having) + OrderText(m, s.dialect, k + |FilterArgs(s.having)|, order)
  }

  function MiddleArgs(s: Spec, order: seq<OrderTerm>): seq<Value> {
    FilterArgs(s.having) + OrderArgs(order)
  }

  function SelectText(m: Marker, s: Spec, where: seq<Token>, k: nat, limit: int, offset: int,
      window: bool): seq<Token> {
    SelectHead(s, window, where) + MiddleText(m, s, k, s.order) +
    LimitText(m, s.dialect, k + |MiddleArgs(s, s.order)|, limit, offset)
  }

  function SelectArgs(s: Spec, whereArgs: seq<Value>, limit: int, offset: int): seq<Value> {
    whereArgs + MiddleArgs(s, s.order) + LimitArgs(limit, offset)
  }

  function KeysetText(m: Marker, s: Spec, where: seq<Token>, k: nat, order: seq<OrderTerm>): seq<Token> {
    SelectHead(s, false, where) + MiddleText(m, s, k, order) + [LimitWord, Place(m, k + |MiddleArgs(s, order)| + 1)]
  }

  function KeysetArgs(s: Spec, whereArgs: seq<Value>, order: seq<OrderTerm>, limit: int): seq<Value> {
    whereArgs + MiddleArgs(s, order) + [Int(limit)]
  }

  predicate HasGrouping(s: Spec) {
    s.groupBy != [] || s.having.Some?
  }

  function CountText(m: Marker, s: Spec, where: seq<Token>, k: nat): seq<Token> {
    if HasGrouping(s) then
      [CountGroups] + FromText(s) + WhereText(where) + (GroupByText(s.groupBy) + HavingText(m, k, s.having)) +
        [GroupsAlias]
    else [SelectCount] + FromText(s) + WhereText(where)
  }

  function CountArgs(s: Spec, whereArgs: seq<Value>): seq<Value> {
    if HasGrouping(s) then whereArgs + FilterArgs(s.having) else whereArgs
  }

  function DeleteText(s: Spec, where: seq<Token>): seq<Token> {
    [DeleteWord, Source(if s.from.None? then "" else s.from.value.text)] + WhereText(where)
  }

  /** `cols[i] = $i`, separated by commas; `k` assignments are already written. */
  function AssignText(m: Marker, k: nat, cols: seq<string>): seq<Token>
    decreases cols
  {
    if cols == [] then []
    else if |cols| == 1 then [Ident(cols[0]), Oper(OpEq), Place(m, k + 1)]
    else [Ident(cols[0]), Oper(OpEq), Place(m, k + 1), Comma] + AssignText(m, k + 1, cols[1..])
  }

  function UpdateText(m: Marker, s: Spec, cols: seq<string>, where: seq<Token>): seq<Token> {
    [UpdateWord, Source(if s.from.None? then "" else s.from.value.text), SetWord] + AssignText(m, 0, cols) +
      WhereText(where)
  }

  // ---------------------------------------------------------------- one numbering for all clauses

  lemma WhereRenders(m: Marker, k: nat, c: Option<Cond>)
    ensures Renders(m, FilterText(m, k, c), FilterText(Numbered, k, c), k, |FilterArgs(c)|)
    ensures Renders(m, WhereText(FilterText(m, k, c)), WhereText(FilterText(Numbered, k, c)), k, |FilterArgs(c)|)
    ensures Renders(m, HavingText(m, k, c), HavingText(Numbered, k, c), k, |FilterArgs(c)|)
  {
    hide Renders;
    hide CondText;
    hide CondArgs;
    RendersPlain(m, [], k);
    RendersPlain(m, [WhereWord], k);
    RendersPlain(m, [HavingWord], k);
    if c.Some? {
      CondRenders(m, k, c.value);
      BlankIffVacuous(m, k, c.value);
      BlankIffVacuous(Numbered, k, c.value);
      var t, tn, n := CondText(m, k, c.value), CondText(Numbered, k, c.value), |CondArgs(c.value)|;
      RendersConcat(m, [WhereWord], [WhereWord], t, tn, k, 0, n);
      RendersConcat(m, [HavingWord], [HavingWord], t, tn, k, 0, n);
    }
  }

  lemma {:induction false} ColumnsPlain(cols: seq<string>)
    ensures forall i :: 0 <= i < |ColumnsText(cols)| ==> !IsPlace(ColumnsText(cols)[i])
  {
    if |cols| > 1 {
      ColumnsPlain(cols[1..]);
    }
  }

  lemma MiddleRenders(m: Marker, s: Spec, k: nat, order: seq<OrderTerm>)
    requires SupportsRelevance(s.dialect) || !HasRelevance(order)
    ensures Renders(m, MiddleText(m, s, k, order), MiddleText(Numbered, s, k, order), k, |MiddleArgs(s, order)|)
  {
    hide Renders;
    hide TermsText;
    hide HavingText;
    var g := GroupByText(s.groupBy);
    ColumnsPlain(s.groupBy);
    RendersPlain(m, g, k);
    WhereRenders(m, k, s.having);
    var n := |FilterArgs(s.having)|;
    OrderRenders(m, s.dialect, k + n, order);
    hide OrderText;
    hide GroupByText;
    RendersConcat(m, g, g, HavingText(m, k, s.having), HavingText(Numbered, k, s.having), k, 0, n);
    RendersConcat(m, g + HavingText(m, k, s.having), g + HavingText(Numbered, k, s.having),
      OrderText(m, s.dialect, k + n, order), OrderText(Numbered, s.dialect, k + n, order), k, n, |OrderArgs(order)|);
  }

  lemma OrderRenders(m: Marker, d: Dialect, k: nat, order: seq<OrderTerm>)
    requires SupportsRelevance(d) || !HasRelevance(order)
    ensures Renders(m, OrderText(m, d, k, order), OrderText(Numbered, d, k, order), k, |OrderArgs(order)|)
  {
    hide Renders;
    TermsRender(m, d, k, order);
    RendersPlain(m, [OrderByWord], k);
    if order != [] {
      hide TermsText;
      hide OrderArgs;
      RendersConcat(m, [OrderByWord], [OrderByWord], TermsText(m, d, k, order), TermsText(Numbered, d, k, order), k, 0,
        |OrderArgs(order)|);
    }
  }

  lemma HeadRenders(m: Marker, s: Spec, window: bool, c: Option<Cond>)
    ensures Renders(m, SelectHead(s, window, FilterText(m, 0, c)), SelectHead(s, window, FilterText(Numbered, 0, c)),
      0, |FilterArgs(c)|)
  {
    hide Renders;
    var h := [SelectWord] + ProjectionText(s) + (if window then [WindowTotal] else []) + FromText(s);
    RendersPlain(m, h, 0);
    WhereRenders(m, 0, c);
    RendersConcat(m, h, h, WhereText(FilterText(m, 0, c)), WhereText(FilterText(Numbered, 0, c)), 0, 0,
      |FilterArgs(c)|);
  }

  lemma LimitRenders(m: Marker, d: Dialect, k: nat, limit: int, offset: int)
    ensures Renders(m, LimitText(m, d, k, limit, offset), LimitText(Numbered, d, k, limit, offset), k,
      |LimitArgs(limit, offset)|)
  {
    hide Renders;
    RendersPlain(m, [], k);
    RendersPlace(m, k);
    RendersPlace(m, k + 1);
    RendersPlain(m, [LimitWord], k);
    RendersPlain(m, [OffsetWord], k + 1);
    var all := (if AllRowsLimit(d).Some? then [LimitWord, AllRows(AllRowsLimit(d).value)] else []) + [OffsetWord];
    RendersPlain(m, all, k);
    RendersConcat(m, all, all, [Place(m, k + 1)], [Slot(k + 1)], k, 0, 1);
    RendersConcat(m, [LimitWord], [LimitWord], [Place(m, k + 1)], [Slot(k + 1)], k, 0, 1);
    RendersConcat(m, [LimitWord] + [Place(m, k + 1)], [LimitWord] + [Slot(k + 1)], [OffsetWord], [OffsetWord], k, 1, 0);
    RendersConcat(m, [LimitWord] + [Place(m, k + 1)] + [OffsetWord], [LimitWord] + [Slot(k + 1)] + [OffsetWord],
      [Place(m, k + 2)], [Slot(k + 2)], k, 1, 1);
    if limit > 0 {
      assert LimitText(m, d, k, limit, offset) == [LimitWord] + [Place(m, k + 1)] + [OffsetWord] + [Place(m, k + 2)];
      assert LimitText(Numbered, d, k, limit, offset) == [LimitWord] + [Slot(k + 1)] + [OffsetWord] + [Slot(k + 2)];
    } else if offset > 0 {
      assert LimitText(m, d, k, limit, offset) == all + [Place(m, k + 1)];
      assert LimitText(Numbered, d, k, limit, offset) == all + [Slot(k + 1)];
    }
  }

  /** List's statement: its placeholders are exactly 1..n in text order for its n arguments, and the
      i-th `?` of the other dialects stands where `$i` stands, for the same argument list. */
  lemma SelectNumbered(m: Marker, s: Spec, c: Option<Cond>, limit: int, offset: int, window: bool)
    requires SupportsRelevance(s.dialect) || !HasRelevance(s.order)
    ensures var n := |FilterArgs(c)|;
      Renders(m, SelectText(m, s, FilterText(m, 0, c), n, limit, offset, window),
        SelectText(Numbered, s, FilterText(Numbered, 0, c), n, limit, offset, window), 0,
        |SelectArgs(s, FilterArgs(c), limit, offset)|)
  {
    hide Renders;
    hide SelectHead;
    hide MiddleText;
    hide LimitText;
    hide FilterText;
    var n, p := |FilterArgs(c)|, |MiddleArgs(s, s.order)|;
    var h, hn := SelectHead(s, window, FilterText(m, 0, c)), SelectHead(s, window, FilterText(Numbered, 0, c));
    var t, tn := MiddleText(m, s, n, s.order), MiddleText(Numbered, s, n, s.order);
    HeadRenders(m, s, window, c);
    MiddleRenders(m, s, n, s.order);
    LimitRenders(m, s.dialect, n + p, limit, offset);
    RendersConcat(m, h, hn, t, tn, 0, n, p);
    RendersConcat(m, h + t, hn + tn, LimitText(m, s.dialect, n + p, limit, offset),
      LimitText(Numbered, s.dialect, n + p, limit, offset),
      0, n + p, |LimitArgs(limit, offset)|);
  }

  /** The same for Seek's statement, ... */
  lemma KeysetNumbered(m: Marker, s: Spec, c: Option<Cond>, order: seq<OrderTerm>, limit: int)
    requires SupportsRelevance(s.dialect) || !HasRelevance(order)
    ensures var n := |FilterArgs(c)|;
      Renders(m, KeysetText(m, s, FilterText(m, 0, c), n, order),
        KeysetText(Numbered, s, FilterText(Numbered, 0, c), n, order),
        0, |KeysetArgs(s, FilterArgs(c), order, limit)|)
  {
    hide Renders;
    hide SelectHead;
    hide MiddleText;
    hide FilterText;
    var n, p := |FilterArgs(c)|, |MiddleArgs(s, order)|;
    var h, hn := SelectHead(s, false, FilterText(m, 0, c)), SelectHead(s, false, FilterText(Numbered, 0, c));
    var t, tn := MiddleText(m, s, n, order), MiddleText(Numbered, s, n, order);
    HeadRenders(m, s, false, c);
    MiddleRenders(m, s, n, order);
    RendersPlain(m, [LimitWord], n + p);
    RendersPlace(m, n + p);
    RendersConcat(m, [LimitWord], [LimitWord], [Place(m, n + p + 1)], [Slot(n + p + 1)], n + p, 0, 1);
    assert [LimitWord] + [Place(m, n + p + 1)] == [LimitWord, Place(m, n + p + 1)];
    assert [LimitWord] + [Slot(n + p + 1)] == [LimitWord, Slot(n + p + 1)];
    RendersConcat(m, h, hn, t, tn, 0, n, p);
    RendersConcat(m, h + t, hn + tn, [LimitWord, Place(m, n + p + 1)], [LimitWord, Slot(n + p + 1)], 0, n + p, 1);
  }

  /** ... for COUNT, grouped or not, ... */
  lemma CountNumbered(m: Marker, s: Spec, c: Option<Cond>)
    ensures var n := |FilterArgs(c)|;
      Renders(m, CountText(m, s, FilterText(m, 0, c), n), CountText(Numbered, s, FilterText(Numbered, 0, c), n),
        0, |CountArgs(s, FilterArgs(c))|)
  {
    hide Renders;
    hide FilterText;
    hide HavingText;
    var n, p := |FilterArgs(c)|, |FilterArgs(s.having)|;
    var head := (if HasGrouping(s) then [CountGroups] else [SelectCount]) + FromText(s);
    var w, wn := WhereText(FilterText(m, 0, c)), WhereText(FilterText(Numbered, 0, c));
    RendersPlain(m, head, 0);
    WhereRenders(m, 0, c);
    RendersConcat(m, head, head, w, wn, 0, 0, n);
    if HasGrouping(s) {
      var g := GroupByText(s.groupBy);
      ColumnsPlain(s.groupBy);
      RendersPlain(m, g, n);
      WhereRenders(m, n, s.having);
      RendersPlain(m, [GroupsAlias], n + p);
      var v, vn := HavingText(m, n, s.having), HavingText(Numbered, n, s.having);
      hide GroupByText;
      RendersConcat(m, g, g, v, vn, n, 0, p);
      RendersConcat(m, head + w, head + wn, g + v, g + vn, 0, n, p);
      RendersConcat(m, head + w + (g + v), head + wn + (g + vn), [GroupsAlias], [GroupsAlias], 0, n + p, 0);
    }
  }

  /** ... for DELETE, ... */
  lemma DeleteNumbered(m: Marker, s: Spec, c: Option<Cond>)
    ensures Renders(m, DeleteText(s, FilterText(m, 0, c)), DeleteText(s, FilterText(Numbered, 0, c)), 0,
      |FilterArgs(c)|)
  {
    hide Renders;
    hide FilterText;
    var head := [DeleteWord, Source(if s.from.None? then "" else s.from.value.text)];
    RendersPlain(m, head, 0);
    WhereRenders(m, 0, c);
    RendersConcat(m, head, head, WhereText(FilterText(m, 0, c)), WhereText(FilterText(Numbered, 0, c)), 0, 0,
      |FilterArgs(c)|);
  }

  lemma {:induction false} AssignRenders(m: Marker, k: nat, cols: seq<string>)
    ensures Renders(m, AssignText(m, k, cols), AssignText(Numbered, k, cols), k, |cols|)
    decreases cols
  {
    hide Renders;
    if cols == [] {
      RendersPlain(m, [], k);
    } else {
      var head := [Ident(cols[0]), Oper(OpEq)];
      RendersPlain(m, head, k);
      RendersPlace(m, k);
      RendersConcat(m, head, head, [Place(m, k + 1)], [Slot(k + 1)], k, 0, 1);
      if |cols| == 1 {
        assert AssignText(m, k, cols) == head + [Place(m, k + 1)];
        assert AssignText(Numbered, k, cols) == head + [Slot(k + 1)];
      } else {
        AssignRenders(m, k + 1, cols[1..]);
        RendersPlain(m, [Comma], k + 1);
        RendersConcat(m, head + [Place(m, k + 1)], head + [Slot(k + 1)], [Comma], [Comma], k, 1, 0);
        RendersConcat(m, head + [Place(m, k + 1)] + [Comma], head + [Slot(k + 1)] + [Comma],
          AssignText(m, k + 1, cols[1..]), AssignText(Numbered, k + 1, cols[1..]), k, 1, |cols| - 1);
        assert [Ident(cols[0]), Oper(OpEq), Place(m, k + 1), Comma] == head + [Place(m, k + 1)] + [Comma];
        assert [Ident(cols[0]), Oper(OpEq), Slot(k + 1), Comma] == head + [Slot(k + 1)] + [Comma];
      }
    }
  }

  /** ... and for UPDATE, whose WHERE is rendered again after the assignments. */
  lemma UpdateNumbered(m: Marker, s: Spec, cols: seq<string>, c: Option<Cond>)
    ensures Renders(m, UpdateText(m, s, cols, FilterText(m, |cols|, c)),
      UpdateText(Numbered, s, cols, FilterText(Numbered, |cols|, c)),
      0, |cols| + |FilterArgs(c)|)
  {
    hide Renders;
    hide FilterText;
    var head := [UpdateWord, Source(if s.from.None? then "" else s.from.value.text), SetWord];
    RendersPlain(m, head, 0);
    AssignRenders(m, 0, cols);
    WhereRenders(m, |cols|, c);
    RendersConcat(m, head, head, AssignText(m, 0, cols), AssignText(Numbered, 0, cols), 0, 0, |cols|);
    RendersConcat(m, head + AssignText(m, 0, cols), head + AssignText(Numbered, 0, cols),
      WhereText(FilterText(m, |cols|, c)), WhereText(FilterText(Numbered, |cols|, c)), 0, |cols|, |FilterArgs(c)|);
  }
}
