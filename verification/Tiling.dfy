/**
  Runs of keyset fetches, each seeking past the edge cursor of the page before it, while the table
  may change in between: the pages tile the data.
 */
module Tiling {
  import opened Conditions
  import opened Cursors
  import opened Dialects
  import opened Logic
  import opened Orders
  import opened Pages
  import opened Queries
  import opened Seek
  import opened Views
  import opened Wrappers

  // ---------------------------------------------------------------- runs

  /** The cursor to page on with: EndCursor going forward, StartCursor going backward. An empty page
      has none. */
  function EdgeCursor(f: Fetched, before: bool): Cursor {
    if f.cursors == [] then NoCursor
    else if before then f.cursors[0]
    else f.cursors[|f.cursors| - 1]
  }

  /** The query seeking on from a page. */
  function SeekOn(s: Spec, f: Fetched): (t: Spec)
    requires s.seek.Some?
    ensures t.seek.Some? && t.seek.value.before == s.seek.value.before && t.seek.value.size == s.seek.value.size
    ensures t.from == s.from && t.order == s.order && t.dialect == s.dialect && EffectiveCond(t) == EffectiveCond(s)
  {
    s.(seek := Some(s.seek.value.(cursor := EdgeCursor(f, s.seek.value.before))))
  }

  /** `pages` are the results of fetching from `dbs[0]`, `dbs[1]`, ... one after the other, each
      fetch but the first seeking on from the page before it, which said that there is more. */
  ghost predicate IsRun(h: Host, s: Spec, dbs: seq<Db>, pages: seq<Fetched>)
    requires s.seek.Some?
    decreases dbs
  {
    && |dbs| == |pages| > 0
    && Fetch(h, s, dbs[0]) == Ok(pages[0])
    && (|pages| > 1 ==> pages[0].truncated && IsRun(h, SeekOn(s, pages[0]), dbs[1..], pages[1..]))
  }

  /** All rows of a run in natural order: later pages follow going forward, precede going backward. */
  function Delivered(before: bool, pages: seq<Fetched>): seq<Row> {
    if pages == [] then []
    else if before then Delivered(before, pages[1..]) + pages[0].rows
    else pages[0].rows + Delivered(before, pages[1..])
  }

  /** The run went on until a fetch said that there is nothing more. */
  predicate Finished(pages: seq<Fetched>) {
    pages != [] && !pages[|pages| - 1].truncated
  }

  /** What a run asks of the query and its first cursor: the filter also stands next to a seek
      predicate. */
  ghost predicate Startable(h: Host, s: Spec) {
    Ready(h, s) && (s.cond.Some? ==> !Vacuous(s.cond.value))
  }

  lemma StartableFits(h: Host, s: Spec)
    requires Startable(h, s)
    ensures s.seek.Some? && s.seek.value.size > 0 && CursorFits(h, s.order, s.seek.value.cursor)
    ensures Ready(h, s) && Faithful(h)
  {
    ReadyFits(h, s);
  }

  ghost predicate AllSound(h: Host, s: Spec, dbs: seq<Db>) {
    forall i :: 0 <= i < |dbs| ==> Sound(h, s, dbs[i])
  }

  /** Some filtered row stands at position `p` of the order. */
  ghost predicate Present(h: Host, s: Spec, p: seq<Pos>, db: Db) {
    exists r :: r in Kept(h.env, EffectiveCond(s), Stored(s, db)) && RowPos(h.env, s.order, r) == p
  }

  /** Position `p` lies past the first cursor, in the paging direction. */
  predicate Reachable(h: Host, s: Spec, p: seq<Pos>)
    requires s.seek.Some? && CursorFits(h, s.order, s.seek.value.cursor) && |p| == |s.order|
  {
    var b := Boundary(h, s.order, s.seek.value.cursor);
    b.None? || PosPast(s, b.value, p)
  }

  predicate PosPast(s: Spec, b: seq<Pos>, p: seq<Pos>)
    requires s.seek.Some? && |b| == |p| == |s.order|
  {
    if s.seek.value.before then Before(s.dialect, Dirs(s.order), p, b) else Before(s.dialect, Dirs(s.order), b, p)
  }

  // ---------------------------------------------------------------- one step

  /** The row of a page next to the rows still to come. */
  function EdgeRow(before: bool, rows: seq<Row>): Row
    requires rows != []
  {
    if before then rows[0] else rows[|rows| - 1]
  }

  /** What a successful fetch of a run gives the next one. */
  lemma StepMeans(h: Host, s: Spec, db: Db, f: Fetched)
    requires Startable(h, s) && Sound(h, s, db) && Fetch(h, s, db) == Ok(f)
    ensures s.seek.value.size > 0
    ensures f.rows == Nearest(Coming(h, s, db), s.seek.value.size, s.seek.value.before)
    ensures f.truncated <==> |Coming(h, s, db)| > s.seek.value.size
    ensures f.truncated ==> f.rows != []
    ensures f.truncated ==>
      PointsAt(h, s.order, EdgeCursor(f, s.seek.value.before), EdgeRow(s.seek.value.before, f.rows))
    ensures f.truncated ==> Startable(h, SeekOn(s, f))
  {
    hide Fetch;
    hide Kept;
    hide EffectiveCond;
    hide Coming;
    hide Contract;
    hide Faithful;
    FetchMeans(h, s, db);
    hide Boundary;
    hide CursorFits;
    hide RowPos;
    hide KeyEncodable;
    if f.truncated {
      SamePageable(h, s, f);
      hide Pageable;
    }
  }

  lemma SamePageable(h: Host, s: Spec, f: Fetched)
    requires Pageable(h, s) && (s.cond.Some? ==> !Vacuous(s.cond.value))
    ensures Pageable(h, SeekOn(s, f))
  {
  }

  /** The rows to come are in order, lie past the cursor, and are all the filtered rows that do. */
  lemma ComingMeans(h: Host, s: Spec, db: Db)
    requires s.seek.Some? && CursorFits(h, s.order, s.seek.value.cursor)
    requires Ascending(h.env, s.dialect, s.order, Sorted(h, s, db))
    ensures Ascending(h.env, s.dialect, s.order, Coming(h, s, db))
    ensures forall r :: r in Coming(h, s, db) <==>
      r in Kept(h.env, EffectiveCond(s), Stored(s, db)) && Reachable(h, s, RowPos(h.env, s.order, r))
  {
    hide EffectiveCond;
    hide CursorFits;
    hide Kept;
    hide SortRows;
    var e, d, order, before := h.env, s.dialect, s.order, s.seek.value.before;
    var b, view := Boundary(h, order, s.seek.value.cursor), View(e, d, order, EffectiveCond(s), Stored(s, db));
    hide Boundary;
    SortMembers(e, d, order, Kept(e, EffectiveCond(s), Stored(s, db)));
    if b.Some? {
      CutSplits(e, d, order, b.value, before, view);
      PartMembers(e, d, order, b.value, before, view);
      SubAscends(e, d, order, view, Cut(e, d, order, b.value, before, view));
    }
    hide RowBefore;
    hide Before;
    hide Cut;
  }

  lemma PastIndex(e: Env, s: Spec, rest: seq<Row>, at: nat, i: nat)
    requires s.seek.Some? && i < |rest| && at < |rest| && Ascending(e, s.dialect, s.order, rest)
    ensures PosPast(s, RowPos(e, s.order, rest[at]), RowPos(e, s.order, rest[i])) <==>
      if s.seek.value.before then i < at else i > at
  {
    hide Before;
    hide RowPos;
    BeforeTrichotomy(s.dialect, Dirs(s.order), RowPos(e, s.order, rest[at]), RowPos(e, s.order, rest[i]));
    assert i < at ==> RowBefore(e, s.dialect, s.order, rest[i], rest[at]);
    assert at < i ==> RowBefore(e, s.dialect, s.order, rest[at], rest[i]);
  }

  /** Rows past the edge of a page, the page, and nothing else: the split the next fetch relies on. */
  lemma NearestEdge(e: Env, s: Spec, rest: seq<Row>)
    requires s.seek.Some? && s.seek.value.size > 0 && |rest| > s.seek.value.size
    requires Ascending(e, s.dialect, s.order, rest)
    ensures var page := Nearest(rest, s.seek.value.size, s.seek.value.before);
      var edge := RowPos(e, s.order, EdgeRow(s.seek.value.before, page));
      && (forall r :: r in rest ==> r in page || PosPast(s, edge, RowPos(e, s.order, r)))
      && (forall r, p: seq<Pos> :: r in page && |p| == |s.order| && PosPast(s, edge, p) ==>
        PosPast(s, RowPos(e, s.order, r), p))
  {
    var size, before := s.seek.value.size, s.seek.value.before;
    var page := Nearest(rest, size, before);
    var at := if before then |rest| - size else size - 1;
    var edge := RowPos(e, s.order, rest[at]);
    assert EdgeRow(before, page) == rest[at];
    hide PosPast;
    hide RowPos;
    hide Ascending;
    hide EdgeRow;
    forall r | r in rest
      ensures r in page || PosPast(s, edge, RowPos(e, s.order, r))
    {
      var i :| 0 <= i < |rest| && rest[i] == r;
      PastIndex(e, s, rest, at, i);
      if (if before then at <= i else i <= at) {
        InPage(rest, size, before, i);
      }
    }
    forall r, p: seq<Pos> | r in page && |p| == |s.order| && PosPast(s, edge, p)
      ensures PosPast(s, RowPos(e, s.order, r), p)
    {
      var j :| 0 <= j < |page| && page[j] == r;
      PastThrough(e, s, rest, if before then at + j else j, at, p);
    }
  }

  lemma InPage(rest: seq<Row>, size: nat, before: bool, i: nat)
    requires 0 < size < |rest| && i < |rest|
    requires if before then |rest| - size <= i else i < size
    ensures rest[i] in Nearest(rest, size, before)
  {
    assert rest[i] == Nearest(rest, size, before)[if before then i - (|rest| - size) else i];
  }

  lemma PastThrough(e: Env, s: Spec, rest: seq<Row>, i: nat, at: nat, p: seq<Pos>)
    requires s.seek.Some? && i < |rest| && at < |rest| && Ascending(e, s.dialect, s.order, rest)
    requires if s.seek.value.before then at <= i else i <= at
    requires |p| == |s.order| && PosPast(s, RowPos(e, s.order, rest[at]), p)
    ensures PosPast(s, RowPos(e, s.order, rest[i]), p)
  {
    var d, dirs, x, y := s.dialect, Dirs(s.order), RowPos(e, s.order, rest[i]), RowPos(e, s.order, rest[at]);
    hide Before;
    if i != at {
      if s.seek.value.before {
        BeforeTransitive(d, dirs, p, y, x);
      } else {
        BeforeTransitive(d, dirs, x, y, p);
      }
    }
  }

  // ---------------------------------------------------------------- whole runs

  lemma SoundLater(h: Host, s: Spec, f: Fetched, dbs: seq<Db>)
    requires s.seek.Some? && AllSound(h, s, dbs) && dbs != []
    ensures Sound(h, s, dbs[0]) && AllSound(h, SeekOn(s, f), dbs[1..])
  {
    hide Contract;
    hide Kept;
    hide EffectiveCond;
  }

  /** Whatever happens to the table between the fetches, the delivered rows are strictly increasing
      (so no key comes twice), and all lie past the first cursor. */
  lemma {:induction false} RunIncreases(h: Host, s: Spec, dbs: seq<Db>, pages: seq<Fetched>)
    requires Startable(h, s) && AllSound(h, s, dbs) && IsRun(h, s, dbs, pages)
    ensures Ascending(h.env, s.dialect, s.order, Delivered(s.seek.value.before, pages))
    ensures forall r :: r in Delivered(s.seek.value.before, pages) ==> Reachable(h, s, RowPos(h.env, s.order, r))
    decreases dbs
  {
    hide Fetch;
    hide Coming;
    hide Pageable;
    hide CursorFits;
    hide Reachable;
    hide PointsAt;
    hide Ascending;
    hide AllSound;
    hide RowPos;
    hide PosPast;
    hide Nearest;
    hide Faithful;
    hide Sound;
    hide EdgeRow;
    hide EdgeCursor;
    hide SeekOn;
    hide Ready;
    hide Startable;
    StartableFits(h, s);
    var f, rest := pages[0], Coming(h, s, dbs[0]);
    SoundLater(h, s, f, dbs);
    PageInOrder(h, s, dbs[0], f);
    StepMeans(h, s, dbs[0], f);
    if |pages| > 1 {
      var more := Delivered(s.seek.value.before, pages[1..]);
      RunIncreases(h, SeekOn(s, f), dbs[1..], pages[1..]);
      MoreBeyond(h, s, f, more);
      SplitAtEdge(h, s, f.rows, rest, more);
    } else {
      assert pages[1..] == [];
      assert [] + f.rows == f.rows == f.rows + [];
    }
  }

  /** What the next fetch can reach is what lies past this page's edge. */
  lemma ReachFromEdge(h: Host, s: Spec, f: Fetched, q: seq<Pos>)
    requires s.seek.Some? && f.rows != [] && |q| == |s.order|
    requires PointsAt(h, s.order, EdgeCursor(f, s.seek.value.before), EdgeRow(s.seek.value.before, f.rows))
    ensures Reachable(h, SeekOn(s, f), q) <==>
      PosPast(s, RowPos(h.env, s.order, EdgeRow(s.seek.value.before, f.rows)), q)
  {
    hide Before;
    hide Boundary;
    hide RowPos;
  }

  lemma MoreBeyond(h: Host, s: Spec, f: Fetched, more: seq<Row>)
    requires s.seek.Some? && f.rows != []
    requires PointsAt(h, s.order, EdgeCursor(f, s.seek.value.before), EdgeRow(s.seek.value.before, f.rows))
    requires forall r :: r in more ==> Reachable(h, SeekOn(s, f), RowPos(h.env, s.order, r))
    ensures forall r :: r in more ==>
      PosPast(s, RowPos(h.env, s.order, EdgeRow(s.seek.value.before, f.rows)), RowPos(h.env, s.order, r))
  {
    hide Reachable;
    hide PointsAt;
    hide PosPast;
    hide RowPos;
    forall r | r in more
      ensures PosPast(s, RowPos(h.env, s.order, EdgeRow(s.seek.value.before, f.rows)), RowPos(h.env, s.order, r))
    {
      ReachFromEdge(h, s, f, RowPos(h.env, s.order, r));
    }
  }

  /** A page is in order and past its cursor. */
  lemma PageInOrder(h: Host, s: Spec, db: Db, f: Fetched)
    requires Startable(h, s) && Sound(h, s, db) && Fetch(h, s, db) == Ok(f)
    ensures Ascending(h.env, s.dialect, s.order, Coming(h, s, db))
    ensures Ascending(h.env, s.dialect, s.order, f.rows)
    ensures forall r :: r in Coming(h, s, db) <==>
      r in Kept(h.env, EffectiveCond(s), Stored(s, db)) && Reachable(h, s, RowPos(h.env, s.order, r))
    ensures forall r :: r in f.rows ==> r in Coming(h, s, db)
  {
    hide Fetch;
    hide Pageable;
    hide Startable;
    hide Coming;
    hide Reachable;
    hide Kept;
    hide EffectiveCond;
    hide RowBefore;
    hide Sound;
    hide Ready;
    StartableFits(h, s);
    ComingInOrder(h, s, db);
    StepMeans(h, s, db, f);
  }

  lemma ComingInOrder(h: Host, s: Spec, db: Db)
    requires Startable(h, s) && Sound(h, s, db)
    ensures Ascending(h.env, s.dialect, s.order, Coming(h, s, db))
    ensures forall r :: r in Coming(h, s, db) <==>
      r in Kept(h.env, EffectiveCond(s), Stored(s, db)) && Reachable(h, s, RowPos(h.env, s.order, r))
  {
    PageMeans(h, s, db);
    hide Page;
    hide Pageable;
    hide Faithful;
    hide Contract;
    ComingMeans(h, s, db);
  }

  /** The rows after the first page come past its edge, hence past all of its rows. */
  lemma SplitAtEdge(h: Host, s: Spec, rows: seq<Row>, rest: seq<Row>, more: seq<Row>)
    requires s.seek.Some? && s.seek.value.size > 0 && |rest| > s.seek.value.size
    requires CursorFits(h, s.order, s.seek.value.cursor)
    requires Ascending(h.env, s.dialect, s.order, rest) && rows == Nearest(rest, s.seek.value.size, s.seek.value.before)
    requires forall r :: r in rest ==> Reachable(h, s, RowPos(h.env, s.order, r))
    requires Ascending(h.env, s.dialect, s.order, more)
    requires forall r :: r in more ==>
      PosPast(s, RowPos(h.env, s.order, EdgeRow(s.seek.value.before, rows)), RowPos(h.env, s.order, r))
    ensures var all := if s.seek.value.before then more + rows else rows + more;
      && Ascending(h.env, s.dialect, s.order, all)
      && forall r :: r in all ==> Reachable(h, s, RowPos(h.env, s.order, r))
  {
    NearestEdge(h.env, s, rest);
    var edge := EdgeRow(s.seek.value.before, rows);
    EdgeIsMember(s.seek.value.before, rest, rows, s.seek.value.size);
    hide PosPast;
    hide CursorFits;
    hide Reachable;
    hide Ascending;
    hide RowPos;
    hide EdgeRow;
    hide Nearest;
    forall r | r in more
      ensures Reachable(h, s, RowPos(h.env, s.order, r))
    {
      ReachOn(h, s, RowPos(h.env, s.order, edge), RowPos(h.env, s.order, r));
    }
    JoinAscending(h.env, s, rows, rest, more);
  }

  lemma EdgeIsMember(before: bool, rest: seq<Row>, rows: seq<Row>, size: nat)
    requires 0 < size < |rest| && rows == Nearest(rest, size, before)
    ensures rows != [] && EdgeRow(before, rows) in rest
    ensures forall r :: r in rows ==> r in rest
  {
    assert EdgeRow(before, rows) == rest[if before then |rest| - size else size - 1];
  }

  lemma ReachOn(h: Host, s: Spec, p: seq<Pos>, q: seq<Pos>)
    requires s.seek.Some? && CursorFits(h, s.order, s.seek.value.cursor) && |p| == |q| == |s.order|
    requires Reachable(h, s, p) && PosPast(s, p, q)
    ensures Reachable(h, s, q)
  {
    hide Before;
    hide CursorFits;
    var b := Boundary(h, s.order, s.seek.value.cursor);
    hide Boundary;
    if b.Some? {
      if s.seek.value.before {
        BeforeTransitive(s.dialect, Dirs(s.order), q, p, b.value);
      } else {
        BeforeTransitive(s.dialect, Dirs(s.order), b.value, p, q);
      }
    }
  }

  lemma JoinAscending(e: Env, s: Spec, rows: seq<Row>, rest: seq<Row>, more: seq<Row>)
    requires s.seek.Some? && s.seek.value.size > 0
    requires Ascending(e, s.dialect, s.order, rest) && rows == Nearest(rest, s.seek.value.size, s.seek.value.before)
    requires Ascending(e, s.dialect, s.order, more)
    requires forall r, x :: r in more && x in rows ==> PosPast(s, RowPos(e, s.order, x), RowPos(e, s.order, r))
    ensures Ascending(e, s.dialect, s.order, if s.seek.value.before then more + rows else rows + more)
  {
    hide Before;
    hide RowPos;
    assert Ascending(e, s.dialect, s.order, rows);
  }

  // ---------------------------------------------------------------- nothing is skipped

  /** Some delivered row stands at position `p`. */
  ghost predicate HasKey(e: Env, order: seq<OrderTerm>, rows: seq<Row>, p: seq<Pos>) {
    exists r :: r in rows && RowPos(e, order, r) == p
  }

  /** A row that is there and past the cursor comes with this page, or lies past its edge. */
  lemma StepFinds(h: Host, s: Spec, db: Db, f: Fetched, p: seq<Pos>)
    requires Startable(h, s) && Sound(h, s, db) && Fetch(h, s, db) == Ok(f)
    requires |p| == |s.order| && Reachable(h, s, p) && Present(h, s, p, db)
    ensures HasKey(h.env, s.order, f.rows, p) ||
      (f.truncated && f.rows != [] && PosPast(s, RowPos(h.env, s.order, EdgeRow(s.seek.value.before, f.rows)), p))
  {
    hide Fetch;
    hide Coming;
    hide Pageable;
    hide Startable;
    hide Reachable;
    hide Kept;
    hide EffectiveCond;
    hide Sound;
    hide PointsAt;
    hide PosPast;
    hide RowPos;
    hide EdgeRow;
    hide EdgeCursor;
    hide Ascending;
    hide Ready;
    StartableFits(h, s);
    var rest := Coming(h, s, db);
    PageInOrder(h, s, db, f);
    StepMeans(h, s, db, f);
    var r :| r in Kept(h.env, EffectiveCond(s), Stored(s, db)) && RowPos(h.env, s.order, r) == p;
    if r !in f.rows {
      assert f.rows != rest;
      NearestEdge(h.env, s, rest);
    }
  }

  lemma PresentLater(h: Host, s: Spec, f: Fetched, p: seq<Pos>, db: Db)
    requires s.seek.Some? && Present(h, s, p, db)
    ensures Present(h, SeekOn(s, f), p, db)
  {
    hide Kept;
    hide EffectiveCond;
    hide RowPos;
  }

  ghost predicate AlwaysPresent(h: Host, s: Spec, p: seq<Pos>, dbs: seq<Db>) {
    forall i :: 0 <= i < |dbs| ==> Present(h, s, p, dbs[i])
  }

  lemma {:induction false} RunCovers(h: Host, s: Spec, dbs: seq<Db>, pages: seq<Fetched>, p: seq<Pos>)
    requires Startable(h, s) && AllSound(h, s, dbs) && IsRun(h, s, dbs, pages) && Finished(pages)
    requires |p| == |s.order| && Reachable(h, s, p) && AlwaysPresent(h, s, p, dbs)
    ensures HasKey(h.env, s.order, Delivered(s.seek.value.before, pages), p)
    decreases dbs
  {
    hide Fetch;
    hide Coming;
    hide Pageable;
    hide CursorFits;
    hide Reachable;
    hide PointsAt;
    hide RowPos;
    hide Sound;
    hide AllSound;
    hide Present;
    hide Faithful;
    hide SeekOn;
    hide Ready;
    hide Startable;
    StartableFits(h, s);
    var f := pages[0];
    SoundLater(h, s, f, dbs);
    StepFinds(h, s, dbs[0], f, p);
    DeliveredHas(h.env, s.order, s.seek.value.before, pages, p);
    if |pages| > 1 {
      if !HasKey(h.env, s.order, f.rows, p) {
        forall i | 0 <= i < |dbs[1..]|
          ensures Present(h, SeekOn(s, f), p, dbs[1..][i])
        {
          PresentLater(h, s, f, p, dbs[i + 1]);
        }
        StepMeans(h, s, dbs[0], f);
        ReachFromEdge(h, s, f, p);
        RunCovers(h, SeekOn(s, f), dbs[1..], pages[1..], p);
      }
    }
  }

  lemma DeliveredHas(e: Env, order: seq<OrderTerm>, before: bool, pages: seq<Fetched>, p: seq<Pos>)
    requires pages != []
    ensures HasKey(e, order, pages[0].rows, p) || HasKey(e, order, Delivered(before, pages[1..]), p) ==>
      HasKey(e, order, Delivered(before, pages), p)
  {
    hide RowPos;
  }

  /** A key that stayed in the filtered table throughout a finished run was delivered exactly once;
      rows that came and went, or were changed by others, do not disturb it. */
  lemma DeliveredOnce(h: Host, s: Spec, dbs: seq<Db>, pages: seq<Fetched>, p: seq<Pos>)
    requires Startable(h, s) && AllSound(h, s, dbs) && IsRun(h, s, dbs, pages) && Finished(pages)
    requires |p| == |s.order| && Reachable(h, s, p) && AlwaysPresent(h, s, p, dbs)
    ensures var all := Delivered(s.seek.value.before, pages);
      exists k :: 0 <= k < |all| && RowPos(h.env, s.order, all[k]) == p &&
        forall j :: 0 <= j < |all| && RowPos(h.env, s.order, all[j]) == p ==> j == k
  {
    hide Fetch;
    hide Coming;
    hide Pageable;
    hide Delivered;
    hide Startable;
    hide AllSound;
    hide IsRun;
    hide Present;
    hide Reachable;
    hide RowPos;
    hide RowBefore;
    hide Ready;
    StartableFits(h, s);
    var all := Delivered(s.seek.value.before, pages);
    RunIncreases(h, s, dbs, pages);
    RunCovers(h, s, dbs, pages, p);
    var r :| r in all && RowPos(h.env, s.order, r) == p;
    var k :| 0 <= k < |all| && all[k] == r;
    forall j | 0 <= j < |all| && RowPos(h.env, s.order, all[j]) == p
      ensures j == k
    {
      RowTrichotomy(h.env, s.dialect, s.order, all[j], all[k]);
      RowTrichotomy(h.env, s.dialect, s.order, all[k], all[j]);
    }
  }

  /** Every delivered row was a filtered row when its page was fetched. */
  lemma {:induction false} RunSound(h: Host, s: Spec, dbs: seq<Db>, pages: seq<Fetched>, i: nat)
    requires Startable(h, s) && AllSound(h, s, dbs) && IsRun(h, s, dbs, pages) && i < |pages|
    ensures forall r :: r in pages[i].rows ==> r in Kept(h.env, EffectiveCond(s), Stored(s, dbs[i]))
    decreases dbs
  {
    hide Fetch;
    hide Coming;
    hide Pageable;
    hide CursorFits;
    hide Reachable;
    hide PointsAt;
    hide Sound;
    hide AllSound;
    hide Faithful;
    hide Kept;
    hide EffectiveCond;
    hide Ready;
    hide Startable;
    StartableFits(h, s);
    assert s.seek.Some?;
    SoundLater(h, s, pages[0], dbs);
    StepMeans(h, s, dbs[0], pages[0]);
    if i == 0 {
      PageInOrder(h, s, dbs[0], pages[0]);
    } else {
      RunSound(h, SeekOn(s, pages[0]), dbs[1..], pages[1..], i - 1);
    }
  }

  // ---------------------------------------------------------------- fixed data

  /** The rows that a page of `size` leaves for later fetches. */
  function Remainder(rest: seq<Row>, size: nat, before: bool): seq<Row> {
    if |rest| <= size then [] else if before then rest[..|rest| - size] else rest[size..]
  }

  /** How many fetches read `n` rows. */
  function FetchesFor(n: nat, size: nat): (k: nat)
    requires size > 0
  {
    if n <= size then 1 else 1 + FetchesFor(n - size, size)
  }

  /** The rows divided by the page size, rounded up, and at least one: one page fewer would be too short. */
  lemma {:induction false} FetchesForIsCeiling(n: nat, size: nat)
    requires size > 0
    ensures var k := FetchesFor(n, size);
      1 <= k && n <= k * size && (k > 1 ==> (k - 1) * size < n)
  {
    if n > size {
      FetchesForIsCeiling(n - size, size);
      var k := FetchesFor(n - size, size);
      assert (1 + k) * size == size + k * size;
      assert k > 1 ==> k * size == size + (k - 1) * size;
    }
  }

  lemma RemainderMeans(e: Env, s: Spec, rest: seq<Row>, r: Row)
    requires s.seek.Some? && s.seek.value.size > 0 && |rest| > s.seek.value.size
    requires Ascending(e, s.dialect, s.order, rest)
    ensures var page := Nearest(rest, s.seek.value.size, s.seek.value.before);
      var edge := RowPos(e, s.order, EdgeRow(s.seek.value.before, page));
      r in Remainder(rest, s.seek.value.size, s.seek.value.before) <==>
      r in rest && PosPast(s, edge, RowPos(e, s.order, r))
  {
    hide Before;
    hide RowPos;
    var size, before := s.seek.value.size, s.seek.value.before;
    var at := if before then |rest| - size else size - 1;
    assert EdgeRow(before, Nearest(rest, size, before)) == rest[at];
    if r in rest {
      var i :| 0 <= i < |rest| && rest[i] == r;
      PastIndex(e, s, rest, at, i);
      if before && i < at {
        assert rest[..|rest| - size][i] == r;
      } else if !before && i > at {
        assert rest[size..][i - size] == r;
      }
    }
    if r in Remainder(rest, size, before) {
      var i :| 0 <= i < |rest| && rest[i] == r && if before then i < at else i > at;
      PastIndex(e, s, rest, at, i);
    }
  }

  lemma RemainderAscends(e: Env, d: Dialect, order: seq<OrderTerm>, rest: seq<Row>, size: nat, before: bool)
    requires Ascending(e, d, order, rest)
    ensures Ascending(e, d, order, Remainder(rest, size, before))
  {
    hide RowBefore;
  }

  /** On unchanged data the next fetch faces exactly what this page left. */
  lemma NextComing(h: Host, s: Spec, db: Db, f: Fetched)
    requires Startable(h, s) && Sound(h, s, db) && Fetch(h, s, db) == Ok(f) && f.truncated
    ensures CursorFits(h, s.order, EdgeCursor(f, s.seek.value.before))
    ensures Coming(h, SeekOn(s, f), db) == Remainder(Coming(h, s, db), s.seek.value.size, s.seek.value.before)
  {
    hide Fetch;
    hide Coming;
    hide Pageable;
    hide Startable;
    hide Sound;
    hide Reachable;
    hide Kept;
    hide EffectiveCond;
    hide PosPast;
    hide RowPos;
    hide PointsAt;
    hide Ascending;
    hide Ready;
    StartableFits(h, s);
    var t, rest := SeekOn(s, f), Coming(h, s, db);
    PageInOrder(h, s, db, f);
    StepMeans(h, s, db, f);
    SoundLater(h, s, f, [db]);
    SameSound(h, s, f, db);
    StartableFits(h, t);
    ComingInOrder(h, t, db);
    var left, edge := Remainder(rest, s.seek.value.size, s.seek.value.before), EdgeRow(s.seek.value.before, f.rows);
    EdgeIsMember(s.seek.value.before, rest, f.rows, s.seek.value.size);
    forall r
      ensures r in Coming(h, t, db) <==> r in left
    {
      RemainderMeans(h.env, s, rest, r);
      ReachFromEdge(h, s, f, RowPos(h.env, s.order, r));
      if PosPast(s, RowPos(h.env, s.order, edge), RowPos(h.env, s.order, r)) {
        ReachOn(h, s, RowPos(h.env, s.order, edge), RowPos(h.env, s.order, r));
      }
    }
    RemainderAscends(h.env, s.dialect, s.order, rest, s.seek.value.size, s.seek.value.before);
    ArrangementUnique(h.env, s.dialect, s.order, Coming(h, t, db), left);
  }

  lemma SameSound(h: Host, s: Spec, f: Fetched, db: Db)
    requires s.seek.Some? && Sound(h, s, db)
    ensures Sound(h, SeekOn(s, f), db)
  {
    hide Contract;
    hide Kept;
    hide EffectiveCond;
  }

  lemma PageAndRemainder(rest: seq<Row>, size: nat, before: bool)
    ensures (if before then Remainder(rest, size, before) + Nearest(rest, size, before)
             else Nearest(rest, size, before) + Remainder(rest, size, before)) == rest
    ensures |rest| > size ==> |Remainder(rest, size, before)| == |rest| - size
  {
  }

  /** While the table stays as it is, a run is never longer than the rows past its first cursor need,
      it is finished exactly when it is that long, and then it has delivered exactly those rows. */
  lemma {:induction false} FixedRun(h: Host, s: Spec, db: Db, dbs: seq<Db>, pages: seq<Fetched>)
    requires Startable(h, s) && Sound(h, s, db) && IsRun(h, s, dbs, pages)
    requires forall i :: 0 <= i < |dbs| ==> dbs[i] == db
    ensures s.seek.value.size > 0
    ensures |pages| <= FetchesFor(|Coming(h, s, db)|, s.seek.value.size)
    ensures Finished(pages) <==> |pages| == FetchesFor(|Coming(h, s, db)|, s.seek.value.size)
    ensures Finished(pages) ==> Delivered(s.seek.value.before, pages) == Coming(h, s, db)
    decreases dbs
  {
    hide IsRun;
    hide EffectiveCond;
    hide Stored;
    hide FetchesFor;
    hide Delivered;
    hide Finished;
    hide EdgeCursor;
    hide RowPos;
    hide SeekOn;
    hide Fetch;
    hide Coming;
    hide Pageable;
    hide CursorFits;
    hide Nearest;
    hide Remainder;
    hide Ready;
    hide Startable;
    hide Sound;
    hide Faithful;
    hide PointsAt;
    hide EdgeRow;
    StartableFits(h, s);
    RunSteps(h, s, dbs, pages);
    var f, rest := pages[0], Coming(h, s, db);
    StepMeans(h, s, db, f);
    PageAndRemainder(rest, s.seek.value.size, s.seek.value.before);
    FetchesMore(|rest|, s.seek.value.size);
    DeliveredSteps(s.seek.value.before, pages);
    if |pages| > 1 {
      NextComing(h, s, db, f);
      SameSound(h, s, f, db);
      FixedRun(h, SeekOn(s, f), db, dbs[1..], pages[1..]);
    } else if |rest| <= s.seek.value.size {
      NothingLeft(rest, s.seek.value.size, s.seek.value.before);
    }
  }

  lemma RunSteps(h: Host, s: Spec, dbs: seq<Db>, pages: seq<Fetched>)
    requires s.seek.Some? && IsRun(h, s, dbs, pages)
    ensures |dbs| == |pages| > 0 && Fetch(h, s, dbs[0]) == Ok(pages[0])
    ensures |pages| > 1 ==> pages[0].truncated && IsRun(h, SeekOn(s, pages[0]), dbs[1..], pages[1..])
  {
    hide Fetch;
    hide SeekOn;
  }

  lemma DeliveredSteps(before: bool, pages: seq<Fetched>)
    requires pages != []
    ensures |pages| == 1 ==> Delivered(before, pages) == pages[0].rows && (Finished(pages) <==> !pages[0].truncated)
    ensures |pages| > 1 ==> (
      && Delivered(before, pages) ==
           (if before then Delivered(before, pages[1..]) + pages[0].rows
            else pages[0].rows + Delivered(before, pages[1..]))
      && (Finished(pages) <==> Finished(pages[1..])))
  {
    if |pages| == 1 {
      assert pages[1..] == [];
      assert [] + pages[0].rows == pages[0].rows == pages[0].rows + [];
    }
  }

  lemma FetchesMore(n: nat, size: nat)
    requires size > 0
    ensures FetchesFor(n, size) == if n <= size then 1 else 1 + FetchesFor(n - size, size)
    ensures n > size ==> FetchesFor(n, size) > 1
  {
    if n > size {
      FetchesForIsCeiling(n - size, size);
    }
  }

  /** From the first page on, forward or backward, that is the whole sorted filtered table, in as many
      fetches as pages fill it. */
  lemma AllPages(h: Host, s: Spec, db: Db, dbs: seq<Db>, pages: seq<Fetched>)
    requires Startable(h, s) && Sound(h, s, db) && IsRun(h, s, dbs, pages) && Finished(pages)
    requires forall i :: 0 <= i < |dbs| ==> dbs[i] == db
    requires s.seek.value.cursor.NoCursor?
    ensures s.seek.value.size > 0
    ensures var view := Sorted(h, s, db);
      Delivered(s.seek.value.before, pages) == view && |pages| == FetchesFor(|view|, s.seek.value.size)
  {
    hide Fetch;
    hide EffectiveCond;
    hide View;
    hide Delivered;
    hide IsRun;
    hide FetchesFor;
    hide Sound;
    hide Pageable;
    hide Faithful;
    hide Ready;
    hide Startable;
    StartableFits(h, s);
    FixedRun(h, s, db, dbs, pages);
  }

  lemma NothingLeft(rest: seq<Row>, size: nat, before: bool)
    requires |rest| <= size
    ensures Nearest(rest, size, before) == rest
  {
  }

  /** Following the edge cursors on unchanged data ends, having delivered everything, provided that
      the keys can be encoded: each page shortens what is still to come. */
  lemma {:induction false} ReadAll(h: Host, s: Spec, db: Db)
      returns (dbs: seq<Db>, pages: seq<Fetched>)
    requires Startable(h, s) && Sound(h, s, db)
    requires forall r :: r in Kept(h.env, EffectiveCond(s), Stored(s, db)) ==> KeyEncodable(h, s.order, r)
    ensures IsRun(h, s, dbs, pages) && Finished(pages)
    ensures forall i :: 0 <= i < |dbs| ==> dbs[i] == db
    ensures Delivered(s.seek.value.before, pages) == Coming(h, s, db)
    decreases |Coming(h, s, db)|
  {
    hide Fetch;
    hide Coming;
    hide KeyEncodable;
    hide Pageable;
    hide EffectiveCond;
    hide Kept;
    hide Ready;
    hide Startable;
    hide Sound;
    hide Faithful;
    hide PointsAt;
    hide Remainder;
    hide CursorFits;
    hide SeekOn;
    hide EdgeCursor;
    hide Nearest;
    hide EdgeRow;
    hide Stored;
    StartableFits(h, s);
    FetchSucceeds(h, s, db);
    var f := Fetch(h, s, db).value;
    StepMeans(h, s, db, f);
    if f.truncated {
      NextComing(h, s, db, f);
      SameSound(h, s, f, db);
      SameStored(s, f, db);
      PageAndRemainder(Coming(h, s, db), s.seek.value.size, s.seek.value.before);
      var ts, ps := ReadAll(h, SeekOn(s, f), db);
      dbs, pages := [db] + ts, [f] + ps;
      assert dbs[1..] == ts && pages[1..] == ps;
    } else {
      dbs, pages := [db], [f];
      assert pages[1..] == [];
      assert [] + f.rows == f.rows == f.rows + [];
      NothingLeft(Coming(h, s, db), s.seek.value.size, s.seek.value.before);
    }
  }

  lemma SameStored(s: Spec, f: Fetched, db: Db)
    requires s.seek.Some?
    ensures Stored(SeekOn(s, f), db) == Stored(s, db)
  {
  }

  lemma FetchSucceeds(h: Host, s: Spec, db: Db)
    requires Startable(h, s) && Sound(h, s, db)
    requires forall r :: r in Kept(h.env, EffectiveCond(s), Stored(s, db)) ==> KeyEncodable(h, s.order, r)
    ensures Fetch(h, s, db).Ok?
  {
    hide Fetch;
    hide KeyEncodable;
    hide Coming;
    hide Kept;
    hide EffectiveCond;
    hide PointsAt;
    hide Ready;
    hide Startable;
    StartableFits(h, s);
    FetchMeans(h, s, db);
    ComingKept(h, s, db);
  }
}