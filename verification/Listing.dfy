/**
  List: one call that filters, sorts, cuts the page, detects a further record and reports the total.
 */
module Listing {
  import opened Conditions
  import opened Cursors
  import opened Database
  import opened Dialects
  import opened Engines
  import opened Fluent
  import opened Logic
  import opened Orders
  import opened Pages
  import opened Paginating
  import opened Queries
  import opened Seek
  import opened Slices
  import opened Views
  import opened Wrappers

  datatype PageInfo = PageInfo(total: int, offset: int, truncated: bool, startCursor: Cursor, endCursor: Cursor)

  /** The outcome of an offset listing: all rows read, the limit they were read for, and the report. */
  datatype Listed = Listed(scanned: seq<Row>, limit: int, info: PageInfo)

  // ---------------------------------------------------------------- keyset mode

  predicate ReportsPage(f: Fetched, info: PageInfo) {
    && info.truncated == f.truncated && info.offset == 0
    && (f.cursors == [] ==> info.startCursor.NoCursor? && info.endCursor.NoCursor?)
    && (f.cursors != [] ==> info.startCursor == f.cursors[0] && info.endCursor == f.cursors[|f.cursors| - 1])
    && info.total == if f.total.Some? then f.total.value else 0
  }

  method ListKeyset(h: Host, q: Query, db: Db, dest: Slice<Row>) returns (res: Result<PageInfo, Failure>)
    requires dest.Valid() && q.seek.Some?
    modifies dest, dest.data
    ensures dest.Valid()
    ensures dest.Contents() == old(dest.Contents()) + PageRows(h, old(q.State()), db)
    ensures match Fetch(h, old(q.State()), db)
            case Err(f) => res == Err(f)
            case Ok(f) => res.Ok? && ReportsPage(f, res.value)
  {
    hide Fetch;
    hide PageRows;
    var fetched := RunKeyset(h, q, db, dest);
    if fetched.Err? {
      return Err(fetched.error);
    }
    var info := PageInfo(0, 0, fetched.value.truncated, NoCursor, NoCursor);
    var n := |fetched.value.cursors|;
    if n > 0 {
      info := info.(startCursor := fetched.value.cursors[0], endCursor := fetched.value.cursors[n - 1]);
    }
    if fetched.value.total.Some? {
      info := info.(total := fetched.value.total.value);
    }
    res := Ok(info);
  }

  // ---------------------------------------------------------------- offset mode

  function Selected(h: Host, s: Spec, db: Db, limit: int, offset: int, window: bool): Option<Answer> {
    var m, c := MarkerOf(s.dialect), EffectiveCond(s);
    h.select(s.dialect, db, SelectText(m, s, FilterText(m, 0, c), |FilterArgs(c)|, limit, offset, window),
      SelectArgs(s, FilterArgs(c), limit, offset))
  }

  /** The total that scanning the rows leaves behind: it is seen only on a row that carries it. */
  function SeenTotal(answer: Answer): nat {
    if |answer.rows| > 0 && answer.total.Some? then answer.total.value else 0
  }

  function Read(h: Host, s: Spec, db: Db, w: (int, int), counted: bool, count: nat): Result<Listed, Failure> {
    match Selected(h, s, db, w.0, w.1, s.paging.includeTotal && !counted)
    case None => Err(QueryFailed)
    case Some(answer) =>
      var total :=
        if counted then Some(count)
        else if s.paging.includeTotal && |answer.rows| > 0 then Some(SeenTotal(answer))
        else if s.paging.includeTotal then Total(h, s, db)
        else Some(0);
      match total
      case None => Err(QueryFailed)
      case Some(n) => Ok(Listed(answer.rows, w.0, PageInfo(n, w.1, w.0 > 0 && |answer.rows| > w.0, NoCursor, NoCursor)))
  }

  function Offsets(h: Host, s: Spec, db: Db): Result<Listed, Failure> {
    if HasRelevance(s.order) && !SupportsRelevance(s.dialect) then Err(RelevanceUnsupported)
    else
      match ResolvePaging(s.paging)
      case Err(f) => Err(f)
      case Ok(Nothing(needsTotal)) =>
        (match if needsTotal then Total(h, s, db) else Some(0)
         case None => Err(QueryFailed)
         case Some(n) => Ok(Listed([], 0, PageInfo(n, 0, false, NoCursor, NoCursor))))
      case Ok(Windowed(paginator, needsTotal)) =>
        match if needsTotal then Total(h, s, db) else Some(0)
        case None => Err(QueryFailed)
        case Some(n) => Read(h, s, db, paginator.Apply(n), needsTotal, n)
  }

  /** What `dest` holds afterwards. A truncated page trims it to `limit` rows counted from its start. */
  function DestAfter(was: seq<Row>, l: Listed): seq<Row> {
    if l.info.truncated && l.limit <= |was + l.scanned| && l.limit >= 0 then (was + l.scanned)[..l.limit]
    else was + l.scanned
  }

  method CheckRelevance(q: Query) returns (has: bool)
    ensures has == HasRelevance(q.order)
  {
    for i := 0 to |q.order|
      invariant forall j :: 0 <= j < i ==> q.order[j].rank.None?
    {
      if q.order[i].rank.Some? {
        return true;
      }
    }
    has := false;
  }

  /** Runs the SELECT and appends its rows; the window total is only seen on a row. */
  method SelectRows(h: Host, q: Query, db: Db, limit: int, offset: int, window: bool, dest: Slice<Row>)
      returns (ok: bool, scanned: nat, windowTotal: nat)
    requires dest.Valid()
    modifies dest, dest.data
    ensures dest.Valid()
    ensures match Selected(h, old(q.State()), db, limit, offset, window)
            case None => !ok && dest.Contents() == old(dest.Contents())
            case Some(answer) =>
              && ok && scanned == |answer.rows| && dest.Contents() == old(dest.Contents()) + answer.rows
              && windowTotal == SeenTotal(answer)
  {
    hide SelectText;
    hide SelectArgs;
    hide CondText;
    hide CondArgs;
    hide EffectiveCond;
    ghost var was := dest.Contents();
    var m := MarkerOf(q.dialect);
    var where, whereArgs := BuildAt(EffectiveCond(q.State()), m, 0);
    var text, args := q.BuildSelect(where, whereArgs, limit, offset, window);
    var answer := h.select(q.dialect, db, text, args);
    ok, scanned, windowTotal := answer.Some?, 0, 0;
    if ok {
      var rows := answer.value.rows;
      assert was + rows[..0] == was;
      for i := 0 to |rows|
        invariant dest.Valid() && (dest.data == old(dest.data) || fresh(dest.data))
        invariant scanned == i && dest.Contents() == was + rows[..i]
        invariant windowTotal == if i > 0 && answer.value.total.Some? then answer.value.total.value else 0
      {
        assert was + rows[..i + 1] == was + rows[..i] + [rows[i]];
        if answer.value.total.Some? {
          windowTotal := answer.value.total.value;
        }
        dest.Append(rows[i]);
        scanned := scanned + 1;
      }
      assert rows[..|rows|] == rows;
    }
  }

  method ReadPage(h: Host, q: Query, db: Db, w: (int, int), preCounted: bool, count: nat, dest: Slice<Row>)
      returns (res: Result<PageInfo, Failure>)
    requires dest.Valid()
    modifies dest, dest.data
    ensures dest.Valid()
    ensures match Read(h, old(q.State()), db, w, preCounted, count)
            case Err(f) => res == Err(f) && dest.Contents() == old(dest.Contents())
            case Ok(l) => res == Ok(l.info) && dest.Contents() == DestAfter(old(dest.Contents()), l)
  {
    hide Selected;
    hide Total;
    hide PageOrder;
    ghost var s, was := q.State(), dest.Contents();
    assert was + [] == was;
    var (limit, offset) := w;
    var includeTotal := q.paging.includeTotal;
    var ok, scanned, windowTotal := SelectRows(h, q, db, limit, offset, includeTotal && !preCounted, dest);
    if !ok {
      return Err(QueryFailed);
    }
    var info := PageInfo(count, offset, false, NoCursor, NoCursor);
    if limit > 0 && scanned > limit {
      info := info.(truncated := true);
      dest.Truncate(limit);
    }
    if preCounted {
    } else if includeTotal && scanned > 0 {
      info := info.(total := windowTotal);
    } else if includeTotal {
      var n := CountRows(h, q, db);
      if n.None? {
        return Err(QueryFailed);
      }
      info := info.(total := n.value);
    } else {
      info := info.(total := 0);
    }
    res := Ok(info);
  }

  method List(h: Host, q: Query, db: Db, dest: Slice<Row>) returns (res: Result<PageInfo, Failure>)
    requires dest.Valid()
    modifies dest, dest.data
    ensures dest.Valid()
    ensures old(q.err).Some? ==> res == Err(old(q.err).value) && dest.Contents() == old(dest.Contents())
    ensures old(q.err.None? && q.seek.Some?) ==>
      dest.Contents() == old(dest.Contents()) + PageRows(h, old(q.State()), db) &&
      match Fetch(h, old(q.State()), db)
      case Err(f) => res == Err(f)
      case Ok(f) => res.Ok? && ReportsPage(f, res.value)
    ensures old(q.err.None? && q.seek.None?) ==>
      match Offsets(h, old(q.State()), db)
      case Err(f) => res == Err(f) && dest.Contents() == old(dest.Contents())
      case Ok(l) => res == Ok(l.info) && dest.Contents() == DestAfter(old(dest.Contents()), l)
  {
    hide Fetch;
    hide PageRows;
    hide Read;
    hide ResolvePaging;
    hide Total;
    hide ReportsPage;
    if q.err.Some? {
      return Err(q.err.value);
    }
    if q.seek.Some? {
      res := ListKeyset(h, q, db, dest);
      return;
    }
    ghost var was := dest.Contents();
    assert was + [] == was;
    var relevance := CheckRelevance(q);
    if relevance && !SupportsRelevance(q.dialect) {
      return Err(RelevanceUnsupported);
    }
    var resolved := Paginate(q.paging);
    if resolved.Err? {
      return Err(resolved.error);
    }
    var needsTotal := resolved.value.needsTotal;
    if resolved.value.Nothing? {
      var info := PageInfo(0, 0, false, NoCursor, NoCursor);
      if needsTotal {
        var n := CountRows(h, q, db);
        if n.None? {
          return Err(QueryFailed);
        }
        info := info.(total := n.value);
      }
      return Ok(info);
    }
    var count := 0;
    if needsTotal {
      var n := CountRows(h, q, db);
      if n.None? {
        return Err(QueryFailed);
      }
      count := n.value;
    }
    res := ReadPage(h, q, db, resolved.value.paginator.Apply(count), needsTotal, count, dest);
  }

  /** The standalone count; ordering and paging play no part. */
  method Count(h: Host, q: Query, db: Db) returns (res: Result<nat, Failure>)
    ensures q.err.Some? ==> res == Err(q.err.value)
    ensures q.err.None? ==>
      res == match Total(h, q.State(), db)
             case None => Err(QueryFailed)
             case Some(n) => Ok(n)
  {
    hide Total;
    if q.err.Some? {
      return Err(q.err.value);
    }
    var n := CountRows(h, q, db);
    res := if n.None? then Err(QueryFailed) else Ok(n.value);
  }

  // ---------------------------------------------------------------- what List delivers

  /** The records a query lists, all of them: the filtered rows of its table, or a row for each of their
      groups, sorted. */
  function Records(h: Host, s: Spec, db: Db): seq<Row> {
    SortRows(h.env, s.dialect, s.order, Results(h.env, s, EffectiveCond(s), Stored(s, db)))
  }

  /** The query can be selected: a well-formed filter and HAVING, and relevance terms only as the setter
      writes them and where the dialect has them. */
  predicate Selectable(s: Spec) {
    && WellFormedFilter(s) && CleanFilter(s.having) && PlainRanks(s.order)
    && (SupportsRelevance(s.dialect) || !HasRelevance(s.order))
  }

  /** Offset mode refuses first a relevance term on a database without relevance, then contradictory
      paging arguments, and nothing else before a statement is sent. */
  lemma OffsetsRefuse(h: Host, s: Spec, db: Db)
    ensures Offsets(h, s, db) == Err(RelevanceUnsupported) <==>
      !TakesRank(s.dialect) && exists i :: 0 <= i < |s.order| && s.order[i].rank.Some?
    ensures Offsets(h, s, db) == Err(PagingPanic) <==>
      !Agreeable(s.paging) && (TakesRank(s.dialect) || forall i :: 0 <= i < |s.order| ==> s.order[i].rank.None?)
    ensures Offsets(h, s, db).Err? ==>
      Offsets(h, s, db).error == RelevanceUnsupported || Offsets(h, s, db).error == PagingPanic ||
      Offsets(h, s, db).error == QueryFailed
  {
    hide Selected;
    hide Total;
    RelevanceAt(s.order);
  }

  /** It can be listed in offset mode: moreover its paging arguments do not contradict each other. */
  predicate Listable(s: Spec) {
    Selectable(s) && Agreeable(s.paging)
  }

  /** The listed rows are the rows of the query's table that satisfy both the filter and the soft-delete
      scope, each as often as the table holds it. */
  lemma SortedMembers(h: Host, s: Spec, db: Db)
    requires WellFormedFilter(s) && !HasGrouping(s)
    ensures forall r :: r in Records(h, s, db) <==> r in Stored(s, db) && Holds(h.env, s.cond, r) && Admits(s, r)
    ensures multiset(Records(h, s, db)) == multiset(Kept(h.env, EffectiveCond(s), Stored(s, db)))
    ensures InOrder(h.env, s.dialect, s.order, Records(h, s, db))
  {
    hide Holds;
    hide Admits;
    hide EffectiveCond;
    hide WellFormedFilter;
    hide Kept;
    hide SortRows;
    hide InOrder;
    KeptInScope(h.env, s, Stored(s, db));
    NothingGrouped(h.env, s, EffectiveCond(s), Stored(s, db));
    SortMembers(h.env, s.dialect, s.order, Kept(h.env, EffectiveCond(s), Stored(s, db)));
    SortInOrder(h.env, s.dialect, s.order, Kept(h.env, EffectiveCond(s), Stored(s, db)));
  }

  /** The records at or after index `i` that the paging arguments ask for. */
  function WantedRows(p: PagingParams, rows: seq<Row>, i: nat): seq<Row>
    requires i <= |rows|
    decreases |rows| - i
  {
    if i == |rows| then []
    else (if Wanted(p, |rows|, i) then [rows[i]] else []) + WantedRows(p, rows, i + 1)
  }

  predicate WantsInterval(p: PagingParams, n: nat, a: nat, b: nat, i: nat) {
    Wanted(p, n, i) <==> a <= i < b
  }

  lemma {:induction false} WantedInterval(p: PagingParams, rows: seq<Row>, i: nat, a: nat, b: nat)
    requires i <= |rows| && a <= b <= |rows|
    requires forall j: nat :: j < |rows| ==> WantsInterval(p, |rows|, a, b, j)
    ensures WantedRows(p, rows, i) == rows[if i < a then a else if i < b then i else b..b]
    decreases |rows| - i
  {
    hide Wanted;
    if i < |rows| {
      WantedInterval(p, rows, i + 1, a, b);
      assert WantsInterval(p, |rows|, a, b, i);
      if a <= i < b {
        assert rows[i..b] == [rows[i]] + rows[i + 1..b];
      }
    }
  }

  /** The rows in a window. */
  function WindowRows(w: (int, int), rows: seq<Row>): seq<Row>
    requires w.1 >= 0
  {
    Window(rows, w.1, if w.0 > 0 then Some(w.0) else None)
  }

  lemma WindowIsWanted(p: PagingParams, pg: Paginator, rows: seq<Row>)
    requires Selects(p, pg, |rows|) && pg.Apply(|rows|).1 >= 0
    ensures WindowRows(pg.Apply(|rows|), rows) == WantedRows(p, rows, 0)
  {
    hide Wanted;
    hide WantedRows;
    var w, n := pg.Apply(|rows|), |rows|;
    var a: nat := if w.1 > n then n else w.1;
    var b: nat := if w.0 > 0 && a + w.0 < n then a + w.0 else n;
    forall j: nat | j < n
      ensures WantsInterval(p, n, a, b, j)
    {
      assert Matches(p, pg, n, j);
    }
    WantedInterval(p, rows, 0, a, b);
  }

  lemma OffsetNatural(p: PagingParams, total: nat)
    requires Agreeable(p) && ResolvePaging(p).value.Windowed?
    ensures ResolvePaging(p).value.paginator.Apply(total).1 >= 0
  {
  }

  lemma SelectedMeans(h: Host, s: Spec, db: Db, limit: int, offset: nat, window: bool)
    requires Executes(h) && Known(s, db) && Selectable(s) && Countable(s.dialect, |Records(h, s, db)|)
    ensures Selected(h, s, db, limit, offset, window) ==
      Some(Answer(Shows(s), Window(Records(h, s, db), offset, if limit > 0 then Some(limit + 1) else None),
        if window then Some(|Records(h, s, db)|) else None))
  {
    hide EffectiveCond;
    hide Results;
    hide CleanFilter;
    hide ResolvePaging;
    hide Window;
    hide ExecSelect;
    hide SelectText;
    hide SelectArgs;
    hide WellFormedFilter;
    hide SortRows;
    hide Executes;
    hide FilterText;
    EffectiveClean(h.env, s);
    var m, c := MarkerOf(s.dialect), EffectiveCond(s);
    SortMembers(h.env, s.dialect, s.order, Results(h.env, s, c, Stored(s, db)));
    SelectMeans(h.env, s, c, db, limit, offset, window);
    Executed(h, s.dialect, db, SelectText(m, s, FilterText(m, 0, c), |FilterArgs(c)|, limit, offset, window),
      SelectArgs(s, FilterArgs(c), limit, offset));
  }

  lemma EffectiveClean(e: Env, s: Spec)
    requires WellFormedFilter(s)
    ensures CleanFilter(EffectiveCond(s))
  {
    ScopeApplies(e, s, map[]);
  }

  lemma CountedMeans(h: Host, s: Spec, db: Db)
    requires Executes(h) && Known(s, db) && WellFormedFilter(s) && CleanFilter(s.having)
    ensures Total(h, s, db) == Some(|Records(h, s, db)|)
  {
    hide EffectiveCond;
    hide ExecCount;
    hide CountText;
    hide CountArgs;
    hide Results;
    hide CleanFilter;
    hide WellFormedFilter;
    hide SortRows;
    hide Executes;
    hide FilterText;
    EffectiveClean(h.env, s);
    var m, c := MarkerOf(s.dialect), EffectiveCond(s);
    CountMeans(h.env, s, c, db);
    Executed(h, s.dialect, db, CountText(m, s, FilterText(m, 0, c), |FilterArgs(c)|), CountArgs(s, FilterArgs(c)));
    SortMembers(h.env, s.dialect, s.order, Results(h.env, s, c, Stored(s, db)));
  }

  lemma ReadMeans(h: Host, s: Spec, db: Db, w: (int, int), counted: bool, count: nat)
    requires Executes(h) && Known(s, db) && Listable(s) && Countable(s.dialect, |Records(h, s, db)|)
    requires w.1 >= 0 && (counted ==> count == |Records(h, s, db)|)
    ensures var rows, n := Records(h, s, db), |Records(h, s, db)|;
      var r := Read(h, s, db, w, counted, count);
      && r.Ok? && DestAfter([], r.value) == WindowRows(w, rows) && r.value.limit == w.0
      && r.value.info == PageInfo(
           if counted || s.paging.includeTotal then n else 0, w.1, w.0 > 0 && w.1 + w.0 < n, NoCursor, NoCursor)
      && (r.value.info.truncated ==> |WindowRows(w, rows)| == w.0)
      && (!r.value.info.truncated ==> r.value.scanned == WindowRows(w, rows))
  {
    hide Executes;
    hide Selected;
    hide Total;
    hide Records;
    hide ResolvePaging;
    hide CleanFilter;
    hide WellFormedFilter;
    SelectedMeans(h, s, db, w.0, w.1, s.paging.includeTotal && !counted);
    ListableCounts(h, s, db);
    WindowOneMore(w, Records(h, s, db));
    hide Window;
  }

  lemma ListableCounts(h: Host, s: Spec, db: Db)
    requires Executes(h) && Known(s, db) && Listable(s)
    ensures Total(h, s, db) == Some(|Records(h, s, db)|)
  {
    hide Executes;
    hide Total;
    hide Records;
    CountedMeans(h, s, db);
  }

  /** One row more than the limit is read exactly when there is one past the window. */
  lemma WindowOneMore(w: (int, int), rows: seq<Row>)
    requires w.1 >= 0
    ensures var more := Window(rows, w.1, if w.0 > 0 then Some(w.0 + 1) else None);
      && [] + more == more
      && (w.0 > 0 && |more| > w.0 <==> w.0 > 0 && w.1 + w.0 < |rows|)
      && WindowRows(w, rows) == (if w.0 > 0 && |more| > w.0 then more[..w.0] else more)
  {
  }

  /** Everything List reports in offset mode: the page an empty `dest` receives, whether records lie
      past it, and the exact total on every path that was asked for it. */
  lemma ListMeans(h: Host, s: Spec, db: Db)
    requires Executes(h) && Known(s, db) && Listable(s) && Countable(s.dialect, |Records(h, s, db)|)
    ensures var rows, p, r := Records(h, s, db), s.paging, ResolvePaging(s.paging).value;
      var n := |rows|;
      && Offsets(h, s, db).Ok?
      && var l := Offsets(h, s, db).value;
      && (WindowExact(p, n) || r.Nothing? ==> DestAfter([], l) == WantedRows(p, rows, 0))
      && (r.Windowed? ==> (
            var w := r.paginator.Apply(n);
            && w.1 >= 0 && DestAfter([], l) == WindowRows(w, rows)
            && l.info.offset == w.1
            && (l.info.truncated <==> w.0 > 0 && w.1 + w.0 < n)))
      && (r.Nothing? ==> l.info.offset == 0 && !l.info.truncated)
      && l.info.total == (if p.includeTotal || (r.Windowed? && r.needsTotal) then n else 0)
      && l.info.startCursor.NoCursor? && l.info.endCursor.NoCursor?
  {
    hide Executes;
    hide Read;
    hide Total;
    hide Records;
    hide WantedRows;
    hide CleanFilter;
    hide WellFormedFilter;
    hide Wanted;
    hide Selects;
    var rows, p, r := Records(h, s, db), s.paging, ResolvePaging(s.paging).value;
    var n := |rows|;
    ListableCounts(h, s, db);
    if r.Windowed? {
      TotalNeeded(p);
      OffsetNatural(p, n);
      hide WindowLimit;
      hide WindowOffset;
      PaginateMeans(p, n);
      assert r.paginator.Apply(if r.needsTotal then n else 0) == r.paginator.Apply(n);
      ReadMeans(h, s, db, r.paginator.Apply(n), r.needsTotal, if r.needsTotal then n else 0);
      if WindowExact(p, n) {
        WindowIsWanted(p, r.paginator, rows);
      }
    } else {
      NothingWanted(p, rows);
    }
  }

  lemma NothingWanted(p: PagingParams, rows: seq<Row>)
    requires Agreeable(p) && ResolvePaging(p).value.Nothing?
    ensures WantedRows(p, rows, 0) == []
  {
    hide Wanted;
    NothingMeans(p);
    forall j: nat | j < |rows|
      ensures WantsInterval(p, |rows|, 0, 0, j)
    {
      assert !Wanted(p, |rows|, j);
    }
    WantedInterval(p, rows, 0, 0, 0);
  }

  /** A `dest` that already held rows keeps them in front of the page exactly when the window reaches to
      the end of the filtered rows: otherwise the trim, counted from the start of `dest`, cuts it short. */
  lemma TrimCountsFromStart(h: Host, s: Spec, db: Db, was: seq<Row>)
    requires Executes(h) && Known(s, db) && Listable(s) && Countable(s.dialect, |Records(h, s, db)|)
    ensures Offsets(h, s, db).Ok?
    ensures var l, r, n := Offsets(h, s, db).value, ResolvePaging(s.paging).value, |Records(h, s, db)|;
      DestAfter(was, l) == was + DestAfter([], l) <==>
        was == [] || r.Nothing? || var w := r.paginator.Apply(n); w.0 <= 0 || n <= w.1 + w.0
  {
    hide Executes;
    hide Read;
    hide Total;
    hide Records;
    hide CleanFilter;
    hide WellFormedFilter;
    hide WindowLimit;
    hide WindowOffset;
    var p, r, n := s.paging, ResolvePaging(s.paging).value, |Records(h, s, db)|;
    ListableCounts(h, s, db);
    if r.Windowed? {
      TotalNeeded(p);
      OffsetNatural(p, n);
      assert r.paginator.Apply(if r.needsTotal then n else 0) == r.paginator.Apply(n);
      ReadMeans(h, s, db, r.paginator.Apply(n), r.needsTotal, if r.needsTotal then n else 0);
    }
    var l := Offsets(h, s, db).value;
    assert [] + l.scanned == l.scanned;
    if l.info.truncated && was != [] {
      assert |DestAfter(was, l)| == l.limit && |DestAfter([], l)| == l.limit;
    }
  }
}
