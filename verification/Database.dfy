/**
  The abstract database executing statement text: it parses what the driver hands over, keeps the
  rows whose WHERE is true, sorts them by the keys it read, and cuts the window. The theorems say
  that the text assembled for a query has exactly the query's meaning.
 */
module Database {
  import opened Conditions
  import opened Dialects
  import opened Engines
  import opened Grouping
  import opened Logic
  import opened Orders
  import opened Parser
  import opened Queries
  import opened Sql
  import opened Views
  import opened Wrappers

  // ---------------------------------------------------------------- reading statements

  /** Which columns of a row are shown: the chosen ones, all of one source, or all there are. */
  datatype Shown = Chosen(columns: seq<string>) | AllOf(alias: string) | Everything

  function ShownBy(t: Token): Shown
    requires t.Projection?
  {
    if t.columns != [] then Chosen(t.columns) else if t.alias != "" then AllOf(t.alias) else Everything
  }

  datatype Limit = NoLimit | LimitSlot(k: nat) | LimitCount(n: int)

  datatype Body = Body(
    src: string, where: Option<Expr>, cols: seq<string>, having: Option<Expr>, keys: seq<SortKey>)

  datatype Select = Select(total: bool, body: Body, limit: Limit, offset: Option<nat>)

  function ParseWhere(ts: seq<Token>): Parsed<Option<Expr>> {
    if ts == [] || !ts[0].WhereWord? then Got(None, ts)
    else
      match ParseOr(ts[1..])
      case Fail => Fail
      case Got(x, rest) => Got(Some(x), rest)
  }

  function ParseOrderBy(d: Dialect, ts: seq<Token>): Parsed<seq<SortKey>> {
    if ts == [] || !ts[0].OrderByWord? then Got([], ts)
    else
      match ParseKeys(d, ts[1..])
      case None => Fail
      case Some((keys, rest)) => Got(keys, rest)
  }

  function ParseLimit(ts: seq<Token>): (Limit, seq<Token>) {
    if |ts| >= 2 && ts[0].LimitWord? && ts[1].Slot? then (LimitSlot(ts[1].k), ts[2..])
    else if |ts| >= 2 && ts[0].LimitWord? && ts[1].AllRows? then (LimitCount(ts[1].count), ts[2..])
    else (NoLimit, ts)
  }

  /** LIMIT and OFFSET, as far as the database takes them. */
  function ParseTail(d: Dialect, total: bool, body: Body, ts: seq<Token>): Option<Select> {
    var (limit, rest) := ParseLimit(ts);
    if limit.LimitCount? && limit.n < 0 && !TakesNegativeLimit(d) then None
    else if rest == [] then Some(Select(total, body, limit, None))
    else if limit.NoLimit? && !TakesBareOffset(d) then None
    else if |rest| == 2 && rest[0].OffsetWord? && rest[1].Slot? then Some(Select(total, body, limit, Some(rest[1].k)))
    else None
  }

  /** The clauses from FROM to ORDER BY. */
  function ParseBody(d: Dialect, ts: seq<Token>): Parsed<Body> {
    if |ts| < 2 || !ts[0].FromWord? || !ts[1].Source? then Fail
    else
      match ParseWhere(ts[2..])
      case Fail => Fail
      case Got(where, r1) =>
        match ParseGroupBy(r1)
        case Fail => Fail
        case Got(cols, r2) =>
          match ParseHaving(r2)
          case Fail => Fail
          case Got(having, r3) =>
            match ParseOrderBy(d, r3)
            case Fail => Fail
            case Got(keys, r4) => Got(Body(ts[1].src, where, cols, having, keys), r4)
  }

  function ParseSelect(d: Dialect, ts: seq<Token>): Option<(Shown, Select)> {
    if |ts| < 3 || !ts[0].SelectWord? || !ts[1].Projection? then None
    else
      match ParseBody(d, if ts[2].WindowTotal? then ts[3..] else ts[2..])
      case Fail => None
      case Got(body, rest) =>
        match ParseTail(d, ts[2].WindowTotal?, body, rest)
        case None => None
        case Some(q) => Some((ShownBy(ts[1]), q))
  }

  // ---------------------------------------------------------------- executing statements

  function KeptBy(e: Env, args: seq<Value>, x: Option<Expr>, rows: seq<Row>): seq<Row> {
    if rows == [] then []
    else if x.None? || Meaning(e, args, x.value, rows[0]) == True then [rows[0]] + KeptBy(e, args, x, rows[1..])
    else KeptBy(e, args, x, rows[1..])
  }

  function InsertByKeys(e: Env, d: Dialect, args: seq<Value>, keys: seq<SortKey>, x: Row, s: seq<Row>): seq<Row> {
    if s == [] then [x]
    else if KeysBefore(e, d, args, keys, s[0], x) then [s[0]] + InsertByKeys(e, d, args, keys, x, s[1..])
    else [x] + s
  }

  function SortByKeys(e: Env, d: Dialect, args: seq<Value>, keys: seq<SortKey>, rows: seq<Row>): seq<Row> {
    if rows == [] then [] else InsertByKeys(e, d, args, keys, rows[0], SortByKeys(e, d, args, keys, rows[1..]))
  }

  function Window(rows: seq<Row>, offset: nat, limit: Option<nat>): seq<Row> {
    var rest := if offset <= |rows| then rows[offset..] else [];
    if limit.Some? && limit.value < |rest| then rest[..limit.value] else rest
  }

  function SlotNat(args: seq<Value>, k: nat): Option<nat> {
    var v := Arg(args, k);
    if v.Int? && v.n >= 0 then Some(v.n) else None
  }

  /** The rows of an answer, which of their columns are shown, and the window total that every row carries
      if the statement selects it. */
  datatype Answer = Answer(shown: Shown, rows: seq<Row>, total: Option<nat>)

  datatype Found = Found(rows: seq<Row>, total: Option<nat>)

  /** How many rows LIMIT lets through: None for all, and nothing at all for an argument that is no count. */
  function RowBound(limit: Limit, args: seq<Value>): Option<Option<nat>> {
    match limit
    case NoLimit => Some(None)
    case LimitSlot(k) => if SlotNat(args, k).None? then None else Some(SlotNat(args, k))
    case LimitCount(n) => Some(if n < 0 then None else Some(n))
  }

  /** What a statement returns of its `count` sorted rows. */
  function Outcome(sorted: seq<Row>, count: nat, q: Select, args: seq<Value>): Option<Found> {
    var offset := if q.offset.None? then Some(0) else SlotNat(args, q.offset.value);
    var bound := RowBound(q.limit, args);
    if offset.None? || bound.None? then None
    else Some(Found(Window(sorted, offset.value, bound.value), if q.total then Some(count) else None))
  }

  function RunSelect(e: Env, d: Dialect, table: seq<Row>, q: Select, args: seq<Value>): Option<Found> {
    var rows := GroupedBy(e, args, q.body.cols, q.body.having, KeptBy(e, args, q.body.where, table));
    Outcome(SortByKeys(e, d, args, q.body.keys, rows), |rows|, q, args)
  }

  /** The text as the database reads it: `$k` and the k-th `?` are argument k. A numbered placeholder
      is a syntax error to a database that takes `?`; the other way round the parsers refuse it. */
  function Prepared(d: Dialect, ts: seq<Token>): Option<seq<Token>> {
    if TakesMarker(d).Positional? && exists t :: t in ts && t.Slot? then None
    else Some(Driver(TakesMarker(d), ts))
  }

  /** A statement that names a table the database does not have is an error. */
  function ExecSelect(e: Env, d: Dialect, db: Db, text: seq<Token>, args: seq<Value>): Option<Answer> {
    match Prepared(d, text)
    case None => None
    case Some(ts) =>
      match ParseSelect(d, ts)
      case None => None
      case Some((shown, q)) =>
        if q.body.src !in db then None
        else
          match RunSelect(e, d, db[q.body.src], q, args)
          case None => None
          case Some(found) => Some(Answer(shown, found.rows, found.total))
  }

  function CountAll(e: Env, args: seq<Value>, table: seq<Row>, ts: seq<Token>): Option<nat> {
    match ParseWhere(ts)
    case Fail => None
    case Got(where, rest) => if rest == [] then Some(|KeptBy(e, args, where, table)|) else None
  }

  function CountGrouped(e: Env, args: seq<Value>, table: seq<Row>, ts: seq<Token>): Option<nat> {
    match ParseWhere(ts)
    case Fail => None
    case Got(where, r1) =>
      match ParseGroupBy(r1)
      case Fail => None
      case Got(cols, r2) =>
        match ParseHaving(r2)
        case Fail => None
        case Got(having, rest) =>
          if rest == [GroupsAlias] then Some(|GroupedBy(e, args, cols, having, KeptBy(e, args, where, table))|)
          else None
  }

  function ExecCount(e: Env, d: Dialect, db: Db, text: seq<Token>, args: seq<Value>): Option<nat> {
    match Prepared(d, text)
    case None => None
    case Some(ts) =>
      if |ts| < 3 || !ts[1].FromWord? || !ts[2].Source? || ts[2].src !in db then None
      else if ts[0].SelectCount? then CountAll(e, args, db[ts[2].src], ts[3..])
      else if ts[0].CountGroups? then CountGrouped(e, args, db[ts[2].src], ts[3..])
      else None
  }

  /** The library writes the placeholders that its database takes. */
  lemma PreparedReads(d: Dialect, ts: seq<Token>, numbered: seq<Token>, n: nat)
    requires Renders(MarkerOf(d), ts, numbered, 0, n)
    ensures Prepared(d, ts) == Some(numbered)
  {
    assert MarkerOf(d) == TakesMarker(d);
    if MarkerOf(d).Positional? {
      NoSlots(ts, 0, n);
    }
  }

  // ---------------------------------------------------------------- WHERE

  /** What may follow a WHERE clause. */
  predicate EndsWhere(ts: seq<Token>) {
    EndsHaving(ts) || ts[0].GroupByWord? || ts[0].HavingWord?
  }

  lemma WhereClauseReadsBack(k: nat, c: Option<Cond>, rest: seq<Token>)
    requires CleanFilter(c) && EndsWhere(rest)
    ensures ParseWhere(WhereText(FilterText(Numbered, k, c)) + rest) == Got(WhereTree(k, c), rest)
  {
    hide CondText;
    hide Tree;
    hide ParseOr;
    if c.None? {
      assert [] + rest == rest;
    } else {
      BlankIffVacuous(Numbered, k, c.value);
      if Vacuous(c.value) {
        assert [] + rest == rest;
      } else {
        var t := CondText(Numbered, k, c.value);
        WhereReadsBack(k, c.value, rest);
        Assoc([WhereWord], t, rest);
        assert ([WhereWord] + (t + rest))[1..] == t + rest;
      }
    }
  }

  lemma {:induction false} KeptByText(e: Env, args: seq<Value>, k: nat, c: Option<Cond>, rows: seq<Row>)
    requires CleanFilter(c) && Bound(args, k, FilterArgs(c))
    ensures KeptBy(e, args, WhereTree(k, c), rows) == Kept(e, c, rows)
  {
    if rows != [] {
      hide Meaning;
      hide Eval;
      hide Tree;
      KeptByText(e, args, k, c, rows[1..]);
      if c.Some? && !Vacuous(c.value) {
        TreeMeans(e, args, k, c.value, rows[0]);
      }
    }
  }

  // ---------------------------------------------------------------- ORDER BY

  lemma {:induction false} InsertAgrees(e: Env, d: Dialect, args: seq<Value>, k: nat, order: seq<OrderTerm>, x: Row,
      s: seq<Row>)
    requires QueriesAt(args, k, order) && PlainRanks(order)
    ensures InsertByKeys(e, d, args, OrderKeys(d, k, order), x, s) == Insert(e, d, order, x, s)
  {
    if s != [] {
      hide KeysBefore;
      hide RowBefore;
      hide OrderKeys;
      KeysOrderAsTerms(e, d, args, k, order, s[0], x);
      InsertAgrees(e, d, args, k, order, x, s[1..]);
    }
  }

  lemma {:induction false} SortAgrees(e: Env, d: Dialect, args: seq<Value>, k: nat, order: seq<OrderTerm>,
      rows: seq<Row>)
    requires QueriesAt(args, k, order) && PlainRanks(order)
    ensures SortByKeys(e, d, args, OrderKeys(d, k, order), rows) == SortRows(e, d, order, rows)
  {
    if rows != [] {
      hide OrderKeys;
      SortAgrees(e, d, args, k, order, rows[1..]);
      InsertAgrees(e, d, args, k, order, rows[0], SortRows(e, d, order, rows[1..]));
    }
  }

  lemma OrderClauseReadsBack(d: Dialect, k: nat, order: seq<OrderTerm>, rest: seq<Token>)
    requires SupportsRelevance(d) || !HasRelevance(order)
    requires rest == [] || rest[0].LimitWord? || rest[0].OffsetWord?
    ensures ParseOrderBy(d, OrderText(Numbered, d, k, order) + rest) == Got(OrderKeys(d, k, order), rest)
  {
    hide TermsText;
    hide ParseKeys;
    if order == [] {
      assert [] + rest == rest;
    } else {
      hide OrderKeys;
      var t := TermsText(Numbered, d, k, order);
      TermsReadBack(d, k, order, rest);
      Assoc([OrderByWord], t, rest);
      assert ([OrderByWord] + (t + rest))[1..] == t + rest;
    }
  }

  // ---------------------------------------------------------------- whole statements

  /** The rows that a query is about, before they are sorted: the filtered rows of its table, or a row for
      each of their groups. */
  function Results(e: Env, s: Spec, c: Option<Cond>, table: seq<Row>): seq<Row> {
    Grouped(e, s.groupBy, s.having, Kept(e, c, table))
  }

  /** What the clauses from FROM to ORDER BY read back as. */
  ghost function BodyOf(s: Spec, c: Option<Cond>, order: seq<OrderTerm>): Body
    requires s.from.Some?
  {
    var n, p := |FilterArgs(c)|, |FilterArgs(s.having)|;
    Body(s.from.value.text, WhereTree(0, c), s.groupBy, WhereTree(n, s.having), OrderKeys(s.dialect, n + p, order))
  }

  predicate StartsTail(ts: seq<Token>) {
    ts == [] || ts[0].LimitWord? || ts[0].OffsetWord?
  }

  /** A statement read back: its clauses, and the given tail. */
  lemma SelectReadsBack(s: Spec, c: Option<Cond>, order: seq<OrderTerm>, window: bool, tail: seq<Token>)
    requires CleanFilter(c) && CleanFilter(s.having) && s.from.Some?
    requires SupportsRelevance(s.dialect) || !HasRelevance(order)
    requires StartsTail(tail)
    ensures var n := |FilterArgs(c)|;
      ParseSelect(s.dialect,
        SelectHead(s, window, FilterText(Numbered, 0, c)) + MiddleText(Numbered, s, n, order) + tail) ==
      match ParseTail(s.dialect, window, BodyOf(s, c, order), tail)
      case None => None
      case Some(q) => Some((Shows(s), q))
  {
    hide FilterText;
    hide MiddleText;
    hide BodyOf;
    hide ParseTail;
    hide ParseSelect;
    hide ParseBody;
    hide ProjectionText;
    hide WhereText;
    hide FromText;
    var n, where := |FilterArgs(c)|, WhereText(FilterText(Numbered, 0, c));
    var middle := MiddleText(Numbered, s, n, order);
    HeadSplits(s, window, where, middle, tail);
    HeadReadsBack(s, window, where + (middle + tail));
    BodyReadsBack(s, c, order, tail);
  }

  /** The clauses between WHERE and LIMIT, split up. */
  lemma MiddleSplits(s: Spec, k: nat, order: seq<OrderTerm>, tail: seq<Token>)
    requires CleanFilter(s.having) && StartsTail(tail)
    ensures var g, v, o := GroupByText(s.groupBy), HavingText(Numbered, k, s.having),
        OrderText(Numbered, s.dialect, k + |FilterArgs(s.having)|, order);
      && MiddleText(Numbered, s, k, order) + tail == g + (v + (o + tail))
      && EndsHaving(o + tail) && EndsWhere(g + (v + (o + tail)))
  {
    hide OrderText;
    hide HavingText;
    hide ColumnsText;
    hide CleanFilter;
    var g, v := GroupByText(s.groupBy), HavingText(Numbered, k, s.having);
    var o := OrderText(Numbered, s.dialect, k + |FilterArgs(s.having)|, order);
    Assoc(g + v, o, tail);
    Assoc(g, v, o + tail);
    StartsOrder(s.dialect, k + |FilterArgs(s.having)|, order, tail);
    HavingReadsBack(k, s.having, o + tail);
    assert s.groupBy == [] ==> [] + (v + (o + tail)) == v + (o + tail);
  }

  lemma BodyReadsBack(s: Spec, c: Option<Cond>, order: seq<OrderTerm>, tail: seq<Token>)
    requires CleanFilter(c) && CleanFilter(s.having) && s.from.Some?
    requires SupportsRelevance(s.dialect) || !HasRelevance(order)
    requires StartsTail(tail)
    ensures var n, where := |FilterArgs(c)|, WhereText(FilterText(Numbered, 0, c));
      ParseBody(s.dialect, FromText(s) + (where + (MiddleText(Numbered, s, n, order) + tail))) ==
      Got(BodyOf(s, c, order), tail)
  {
    hide FilterText;
    hide MiddleText;
    hide GroupByText;
    hide HavingText;
    hide OrderText;
    hide OrderKeys;
    hide ParseWhere;
    hide ParseGroupBy;
    hide ParseHaving;
    hide ParseOrderBy;
    hide WhereText;
    hide WhereTree;
    hide CleanFilter;
    hide EndsHaving;
    hide EndsWhere;
    var n, p := |FilterArgs(c)|, |FilterArgs(s.having)|;
    var where, g, v := WhereText(FilterText(Numbered, 0, c)), GroupByText(s.groupBy), HavingText(Numbered, n, s.having);
    var o := OrderText(Numbered, s.dialect, n + p, order);
    var body := where + (g + (v + (o + tail)));
    MiddleSplits(s, n, order, tail);
    FromReadsBack(s, body);
    WhereClauseReadsBack(0, c, g + (v + (o + tail)));
    HavingReadsBack(n, s.having, o + tail);
    GroupByReadsBack(s.groupBy, v + (o + tail));
    OrderClauseReadsBack(s.dialect, n + p, order, tail);
  }

  lemma FromReadsBack(s: Spec, body: seq<Token>)
    requires s.from.Some?
    ensures var ts := FromText(s) + body;
      |ts| >= 2 && ts[0] == FromWord && ts[1] == Source(s.from.value.text) && ts[2..] == body
  {
  }

  /** What a query shows of its rows: the columns it selects, else those of an aliased base table, else
      all. */
  function Shows(s: Spec): Shown {
    if s.columns != [] then Chosen(s.columns)
    else if s.from.Some? && s.from.value.alias != "" then AllOf(s.from.value.alias)
    else Everything
  }

  lemma HeadReadsBack(s: Spec, window: bool, rest: seq<Token>)
    ensures ParseSelect(s.dialect,
      [SelectWord] + ProjectionText(s) + (if window then [WindowTotal] else []) + (FromText(s) + rest)) ==
      match ParseBody(s.dialect, FromText(s) + rest)
      case Fail => None
      case Got(body, tail) =>
        match ParseTail(s.dialect, window, body, tail)
        case None => None
        case Some(q) => Some((Shows(s), q))
  {
    hide ParseBody;
    hide ParseTail;
    var body := FromText(s) + rest;
    var head := [SelectWord] + ProjectionText(s) + (if window then [WindowTotal] else []);
    var ts := head + body;
    assert ts[0] == SelectWord && ts[1] == ProjectionText(s)[0] && ts[2] == if window then WindowTotal else FromWord;
    assert ts[|head|..] == body;
  }

  lemma StartsOrder(d: Dialect, k: nat, order: seq<OrderTerm>, tail: seq<Token>)
    requires StartsTail(tail)
    ensures EndsHaving(OrderText(Numbered, d, k, order) + tail)
  {
    hide TermsText;
    if order == [] {
      assert [] + tail == tail;
    }
  }

  lemma HeadSplits(s: Spec, window: bool, where: seq<Token>, o: seq<Token>, tail: seq<Token>)
    ensures [SelectWord] + ProjectionText(s) + (if window then [WindowTotal] else []) +
      FromText(s) + where + o + tail ==
      [SelectWord] + ProjectionText(s) + (if window then [WindowTotal] else []) + (FromText(s) + (where + (o + tail)))
  {
    var head := [SelectWord] + ProjectionText(s) + (if window then [WindowTotal] else []);
    hide ProjectionText;
    hide FromText;
    Assoc(head + FromText(s) + where, o, tail);
    Assoc(head + FromText(s), where, o + tail);
    Assoc(head, FromText(s), where + (o + tail));
  }

  lemma BoundPrefix(own: seq<Value>, more: seq<Value>)
    ensures Bound(own + more, 0, own)
  {
    assert (own + more)[0..|own|] == own;
  }

  lemma BoundBehind(before: seq<Value>, own: seq<Value>)
    ensures Bound(before + own, |before|, own)
  {
    assert (before + own)[|before|..|before| + |own|] == own;
  }

  lemma BoundInside(before: seq<Value>, own: seq<Value>, after: seq<Value>)
    ensures Bound(before + own + after, |before|, own)
    ensures Bound(before + (own + after), |before|, own)
  {
    Assoc(before, own, after);
    assert (before + own + after)[|before|..|before| + |own|] == own;
  }

  /** Executing List's statement: the filtered rows of the table that the query names, or one row for each
      of their groups, sorted as the terms say, cut to the window with one extra row; each row carries the
      number of them all exactly if the window total is selected. */
  lemma SelectMeans(e: Env, s: Spec, c: Option<Cond>, db: Db, limit: int, offset: nat, window: bool)
    requires s.from.Some? && s.from.value.text in db
    requires CleanFilter(c) && CleanFilter(s.having) && PlainRanks(s.order)
    requires Countable(s.dialect, |Results(e, s, c, db[s.from.value.text])|)
    requires SupportsRelevance(s.dialect) || !HasRelevance(s.order)
    ensures var m, n, rows := MarkerOf(s.dialect), |FilterArgs(c)|, Results(e, s, c, db[s.from.value.text]);
      ExecSelect(e, s.dialect, db, SelectText(m, s, FilterText(m, 0, c), n, limit, offset, window),
        SelectArgs(s, FilterArgs(c), limit, offset)) ==
      Some(Answer(Shows(s),
        Window(SortRows(e, s.dialect, s.order, rows), offset, if limit > 0 then Some(limit + 1) else None),
        if window then Some(|rows|) else None))
  {
    hide FilterText;
    hide MiddleArgs;
    hide ParseSelect;
    hide SortRows;
    hide Window;
    hide LimitArgs;
    hide LimitText;
    hide SelectText;
    hide RunSelect;
    hide Results;
    hide BodyOf;
    hide TailSelect;
    hide Outcome;
    hide Prepared;
    hide CleanFilter;
    var d, rows := s.dialect, Results(e, s, c, db[s.from.value.text]);
    var own := FilterArgs(c) + MiddleArgs(s, s.order);
    var q := TailSelect(d, |own|, limit, offset, window, BodyOf(s, c, s.order));
    SelectParses(s, c, limit, offset, window);
    PreparedSelect(s, c, limit, offset, window);
    TailKeeps(d, |own|, limit, offset, window, BodyOf(s, c, s.order));
    BodySource(s, c, s.order);
    RunMeans(e, s, c, s.order, db[s.from.value.text], LimitArgs(limit, offset), q);
    SortMembers(e, d, s.order, rows);
    TailOutcome(SortRows(e, d, s.order, rows), |rows|, own, d, limit, offset, window, BodyOf(s, c, s.order));
  }

  lemma BodySource(s: Spec, c: Option<Cond>, order: seq<OrderTerm>)
    requires s.from.Some?
    ensures BodyOf(s, c, order).src == s.from.value.text
  {
  }

  lemma TailKeeps(d: Dialect, k: nat, limit: int, offset: int, total: bool, body: Body)
    ensures TailSelect(d, k, limit, offset, total, body).body == body
  {
  }

  lemma TailOutcome(sorted: seq<Row>, count: nat, before: seq<Value>, d: Dialect, limit: int, offset: nat, total: bool,
      body: Body)
    requires Countable(d, |sorted|)
    ensures Outcome(sorted, count, TailSelect(d, |before|, limit, offset, total, body),
      before + LimitArgs(limit, offset)) ==
      Some(Found(
        Window(sorted, offset, if limit > 0 then Some(limit + 1) else None), if total then Some(count) else None))
  {
    LimitSlots(before, limit, offset);
    hide LimitArgs;
    hide SlotNat;
  }

  lemma SelectParses(s: Spec, c: Option<Cond>, limit: int, offset: int, window: bool)
    requires CleanFilter(c) && CleanFilter(s.having) && s.from.Some?
    requires SupportsRelevance(s.dialect) || !HasRelevance(s.order)
    ensures var n := |FilterArgs(c)|;
      ParseSelect(s.dialect, SelectText(Numbered, s, FilterText(Numbered, 0, c), n, limit, offset, window)) ==
        Some((Shows(s),
          TailSelect(s.dialect, n + |MiddleArgs(s, s.order)|, limit, offset, window, BodyOf(s, c, s.order))))
  {
    hide FilterText;
    hide SelectHead;
    hide MiddleText;
    hide MiddleArgs;
    hide ParseSelect;
    hide ParseTail;
    hide BodyOf;
    hide TailSelect;
    hide CleanFilter;
    hide LimitText;
    var d, k := s.dialect, |FilterArgs(c)| + |MiddleArgs(s, s.order)|;
    LimitStarts(d, k, limit, offset);
    SelectReadsBack(s, c, s.order, window, LimitText(Numbered, d, k, limit, offset));
    TailReadsBack(d, k, limit, offset, window, BodyOf(s, c, s.order));
  }

  lemma LimitStarts(d: Dialect, k: nat, limit: int, offset: int)
    ensures StartsTail(LimitText(Numbered, d, k, limit, offset))
  {
  }

  /** Running a statement whose clauses came from a query. */
  lemma RunMeans(e: Env, s: Spec, c: Option<Cond>, order: seq<OrderTerm>, table: seq<Row>, more: seq<Value>, q: Select)
    requires CleanFilter(c) && CleanFilter(s.having) && PlainRanks(order) && s.from.Some?
    requires q.body == BodyOf(s, c, order)
    ensures var args, rows := FilterArgs(c) + MiddleArgs(s, order) + more, Results(e, s, c, table);
      RunSelect(e, s.dialect, table, q, args) == Outcome(SortRows(e, s.dialect, order, rows), |rows|, q, args)
  {
    hide OrderKeys;
    hide WhereTree;
    hide KeptBy;
    hide Kept;
    hide SortByKeys;
    hide SortRows;
    hide GroupedBy;
    hide Grouped;
    hide Bound;
    hide CleanFilter;
    hide Outcome;
    var a, b, o := FilterArgs(c), FilterArgs(s.having), OrderArgs(order);
    var args := a + MiddleArgs(s, order) + more;
    ArgsSplit(a, b, o, more);
    BoundPrefix(a, b + o + more);
    BoundInside(a, b, o + more);
    BoundInside(a + b, o, more);
    KeptByText(e, args, 0, c, table);
    GroupedByText(e, args, |a|, s.groupBy, s.having, Kept(e, c, table));
    QueriesBound(args, |a + b|, order);
    SortAgrees(e, s.dialect, args, |a + b|, order, Results(e, s, c, table));
  }

  lemma ArgsSplit(a: seq<Value>, b: seq<Value>, o: seq<Value>, more: seq<Value>)
    ensures a + (b + o) + more == a + (b + o + more) == a + b + (o + more) == a + b + o + more
  {
  }

  lemma QueriesBound(args: seq<Value>, k: nat, order: seq<OrderTerm>)
    requires Bound(args, k, OrderArgs(order))
    ensures QueriesAt(args, k, order)
  {
  }

  lemma PreparedSelect(s: Spec, c: Option<Cond>, limit: int, offset: int, window: bool)
    requires SupportsRelevance(s.dialect) || !HasRelevance(s.order)
    ensures var m, n := MarkerOf(s.dialect), |FilterArgs(c)|;
      Prepared(s.dialect, SelectText(m, s, FilterText(m, 0, c), n, limit, offset, window)) ==
      Some(SelectText(Numbered, s, FilterText(Numbered, 0, c), n, limit, offset, window))
  {
    hide SelectText;
    hide SelectArgs;
    hide FilterText;
    hide Prepared;
    hide Renders;
    var m, n := MarkerOf(s.dialect), |FilterArgs(c)|;
    SelectNumbered(m, s, c, limit, offset, window);
    PreparedReads(s.dialect, SelectText(m, s, FilterText(m, 0, c), n, limit, offset, window),
      SelectText(Numbered, s, FilterText(Numbered, 0, c), n, limit, offset, window),
        |SelectArgs(s, FilterArgs(c), limit, offset)|);
  }

  ghost function TailSelect(d: Dialect, k: nat, limit: int, offset: int, total: bool, body: Body): Select {
    if limit > 0 then Select(total, body, LimitSlot(k + 1), Some(k + 2))
    else if offset > 0 then
      var limit := if AllRowsLimit(d).Some? then LimitCount(AllRowsLimit(d).value) else NoLimit;
      Select(total, body, limit, Some(k + 1))
    else Select(total, body, NoLimit, None)
  }

  lemma TailReadsBack(d: Dialect, k: nat, limit: int, offset: int, total: bool, body: Body)
    ensures ParseTail(d, total, body, LimitText(Numbered, d, k, limit, offset)) ==
      Some(TailSelect(d, k, limit, offset, total, body))
  {
    var ts := LimitText(Numbered, d, k, limit, offset);
    if limit > 0 {
      assert ts[2..] == [OffsetWord, Slot(k + 2)];
    } else if offset > 0 && AllRowsLimit(d).Some? {
      assert ts == [LimitWord, AllRows(AllRowsLimit(d).value), OffsetWord, Slot(k + 1)];
      assert ts[2..] == [OffsetWord, Slot(k + 1)];
    }
  }

  lemma LimitSlots(before: seq<Value>, limit: int, offset: nat)
    ensures var args, k := before + LimitArgs(limit, offset), |before|;
      && (limit > 0 ==> SlotNat(args, k + 1) == Some(limit + 1) && SlotNat(args, k + 2) == Some(offset))
      && (limit <= 0 && offset > 0 ==> SlotNat(args, k + 1) == Some(offset))
  {
  }

  /** Executing Seek's statement: the first `limit` of the filtered rows of the query's table, or of their
      groups, sorted as the terms say. */
  lemma KeysetMeans(e: Env, s: Spec, c: Option<Cond>, order: seq<OrderTerm>, db: Db, limit: nat)
    requires s.from.Some? && s.from.value.text in db
    requires CleanFilter(c) && CleanFilter(s.having) && PlainRanks(order) && !HasRelevance(order)
    ensures var m, n, rows := MarkerOf(s.dialect), |FilterArgs(c)|, Results(e, s, c, db[s.from.value.text]);
      ExecSelect(e, s.dialect, db, KeysetText(m, s, FilterText(m, 0, c), n, order),
        KeysetArgs(s, FilterArgs(c), order, limit)) ==
      Some(Answer(Shows(s), Window(SortRows(e, s.dialect, order, rows), 0, Some(limit)), None))
  {
    hide FilterText;
    hide SelectHead;
    hide MiddleText;
    hide MiddleArgs;
    hide ParseSelect;
    hide ParseTail;
    hide SortRows;
    hide Window;
    hide RunSelect;
    hide Results;
    hide BodyOf;
    hide CleanFilter;
    hide Prepared;
    var own := FilterArgs(c) + MiddleArgs(s, order);
    PreparedKeyset(s, c, order, limit);
    SelectReadsBack(s, c, order, false, [LimitWord, Slot(|own| + 1)]);
    OnlyLimit(s.dialect, |own|, BodyOf(s, c, order));
    BodySource(s, c, order);
    RunMeans(e, s, c, order, db[s.from.value.text], [Int(limit)],
      Select(false, BodyOf(s, c, order), LimitSlot(|own| + 1), None));
    assert (own + [Int(limit)])[|own|] == Int(limit);
  }

  lemma OnlyLimit(d: Dialect, k: nat, body: Body)
    ensures ParseTail(d, false, body, [LimitWord, Slot(k + 1)]) == Some(Select(false, body, LimitSlot(k + 1), None))
  {
    assert [LimitWord, Slot(k + 1)][2..] == [];
  }

  lemma PreparedKeyset(s: Spec, c: Option<Cond>, order: seq<OrderTerm>, limit: int)
    requires !HasRelevance(order)
    ensures var m, n := MarkerOf(s.dialect), |FilterArgs(c)|;
      Prepared(s.dialect, KeysetText(m, s, FilterText(m, 0, c), n, order)) ==
      Some(KeysetText(Numbered, s, FilterText(Numbered, 0, c), n, order))
  {
    hide KeysetText;
    hide KeysetArgs;
    hide FilterText;
    hide Prepared;
    hide Renders;
    var m, n := MarkerOf(s.dialect), |FilterArgs(c)|;
    KeysetNumbered(m, s, c, order, limit);
    PreparedReads(s.dialect, KeysetText(m, s, FilterText(m, 0, c), n, order),
      KeysetText(Numbered, s, FilterText(Numbered, 0, c), n, order), |KeysetArgs(s, FilterArgs(c), order, limit)|);
  }

  /** Executing COUNT, wrapped or not: how many rows the query is about, the same number that the window
      total shows. */
  lemma CountMeans(e: Env, s: Spec, c: Option<Cond>, db: Db)
    requires s.from.Some? && s.from.value.text in db
    requires CleanFilter(c) && CleanFilter(s.having)
    ensures var m, n := MarkerOf(s.dialect), |FilterArgs(c)|;
      ExecCount(e, s.dialect, db, CountText(m, s, FilterText(m, 0, c), n), CountArgs(s, FilterArgs(c))) ==
      Some(|Results(e, s, c, db[s.from.value.text])|)
  {
    hide CountText;
    hide CountArgs;
    hide FilterText;
    hide Prepared;
    hide CountAll;
    hide CountGrouped;
    hide Results;
    hide CleanFilter;
    var m, n := MarkerOf(s.dialect), |FilterArgs(c)|;
    CountNumbered(m, s, c);
    PreparedReads(s.dialect, CountText(m, s, FilterText(m, 0, c), n),
      CountText(Numbered, s, FilterText(Numbered, 0, c), n), |CountArgs(s, FilterArgs(c))|);
    if HasGrouping(s) {
      GroupedCount(e, s, c, db[s.from.value.text]);
    } else {
      PlainCount(e, s, c, db[s.from.value.text]);
    }
  }

  lemma PlainCount(e: Env, s: Spec, c: Option<Cond>, table: seq<Row>)
    requires s.from.Some? && !HasGrouping(s) && CleanFilter(c)
    ensures var ts := CountText(Numbered, s, FilterText(Numbered, 0, c), |FilterArgs(c)|);
      && |ts| >= 3 && ts[0] == SelectCount && ts[1] == FromWord && ts[2] == Source(s.from.value.text)
      && CountAll(e, CountArgs(s, FilterArgs(c)), table, ts[3..]) == Some(|Results(e, s, c, table)|)
  {
    hide WhereTree;
    hide KeptBy;
    hide Kept;
    hide WhereText;
    hide Bound;
    hide FilterText;
    hide ParseWhere;
    hide CleanFilter;
    var where := WhereText(FilterText(Numbered, 0, c));
    var ts := [SelectCount] + FromText(s) + where;
    assert ts[0] == SelectCount && ts[1] == FromWord && ts[2] == FromText(s)[1] && ts[3..] == where;
    WhereClauseReadsBack(0, c, []);
    assert where + [] == where;
    BoundPrefix(FilterArgs(c), []);
    assert FilterArgs(c) + [] == FilterArgs(c);
    KeptByText(e, FilterArgs(c), 0, c, table);
  }

  lemma GroupedCount(e: Env, s: Spec, c: Option<Cond>, table: seq<Row>)
    requires s.from.Some? && HasGrouping(s) && CleanFilter(c) && CleanFilter(s.having)
    ensures var ts := CountText(Numbered, s, FilterText(Numbered, 0, c), |FilterArgs(c)|);
      && |ts| >= 3 && ts[0] == CountGroups && ts[1] == FromWord && ts[2] == Source(s.from.value.text)
      && CountGrouped(e, CountArgs(s, FilterArgs(c)), table, ts[3..]) == Some(|Results(e, s, c, table)|)
  {
    hide WhereTree;
    hide KeptBy;
    hide Kept;
    hide WhereText;
    hide GroupByText;
    hide HavingText;
    hide Bound;
    hide FilterText;
    hide ParseWhere;
    hide ParseGroupBy;
    hide ParseHaving;
    hide GroupedBy;
    hide Grouped;
    hide CleanFilter;
    hide EndsHaving;
    var n := |FilterArgs(c)|;
    var where, g, v := WhereText(FilterText(Numbered, 0, c)), GroupByText(s.groupBy), HavingText(Numbered, n, s.having);
    GroupedSplits(s, where, g, v);
    AliasEnds(n, s.groupBy, s.having);
    WhereClauseReadsBack(0, c, g + (v + [GroupsAlias]));
    HavingReadsBack(n, s.having, [GroupsAlias]);
    GroupByReadsBack(s.groupBy, v + [GroupsAlias]);
    var args := FilterArgs(c) + FilterArgs(s.having);
    BoundPrefix(FilterArgs(c), FilterArgs(s.having));
    BoundBehind(FilterArgs(c), FilterArgs(s.having));
    KeptByText(e, args, 0, c, table);
    GroupedByText(e, args, n, s.groupBy, s.having, Kept(e, c, table));
  }

  /** What follows the WHERE of a grouped COUNT. */
  lemma AliasEnds(k: nat, cols: seq<string>, having: Option<Cond>)
    ensures EndsHaving([GroupsAlias])
    ensures EndsWhere(GroupByText(cols) + (HavingText(Numbered, k, having) + [GroupsAlias]))
  {
    hide FilterText;
    hide ColumnsText;
    var v := HavingText(Numbered, k, having) + [GroupsAlias];
    assert cols == [] ==> [] + v == v;
  }

  lemma GroupedSplits(s: Spec, where: seq<Token>, g: seq<Token>, v: seq<Token>)
    requires s.from.Some?
    ensures var ts := [CountGroups] + FromText(s) + where + (g + v) + [GroupsAlias];
      && |ts| >= 3 && ts[0] == CountGroups && ts[1] == FromWord && ts[2] == Source(s.from.value.text)
      && ts[3..] == where + (g + (v + [GroupsAlias]))
  {
    var ts := [CountGroups] + FromText(s) + where + (g + v) + [GroupsAlias];
    var head := [CountGroups, FromWord, Source(s.from.value.text)];
    assert [CountGroups] + FromText(s) == head;
    Assoc(head + where, g + v, [GroupsAlias]);
    Assoc(g, v, [GroupsAlias]);
    Assoc(head, where, g + (v + [GroupsAlias]));
    assert ts == head + (where + (g + (v + [GroupsAlias])));
  }

  /** A query that groups nothing is about the filtered rows themselves. */
  lemma NothingGrouped(e: Env, s: Spec, c: Option<Cond>, table: seq<Row>)
    requires !HasGrouping(s)
    ensures Results(e, s, c, table) == Kept(e, c, table)
  {
  }
}
