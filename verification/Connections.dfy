/**
  Relay connections: edges with a cursor each, and the page flags of section 5.1 of the GraphQL
  Cursor Connections Specification.
 */
module Connections {
  import opened Conditions
  import opened Cursors
  import opened Dialects
  import opened Fluent
  import opened Keyset
  import opened Logic
  import opened Orders
  import opened Pages
  import opened Queries
  import opened Seek
  import opened Slices
  import opened Views
  import opened Wrappers

  datatype Edge = Edge(node: Row, cursor: Cursor)

  datatype RelayPageInfo = RelayPageInfo(
    hasNextPage: bool, hasPreviousPage: bool, startCursor: Cursor, endCursor: Cursor)

  datatype Connection = Connection(edges: seq<Edge>, pageInfo: RelayPageInfo, totalCount: int)

  /** What a connection built from a fetch must say. */
  predicate Assembled(k: SeekState, f: Fetched, conn: Connection) {
    && |conn.edges| == |f.rows| == |f.cursors|
    && (forall i :: 0 <= i < |f.rows| ==> conn.edges[i] == Edge(f.rows[i], f.cursors[i]))
    && (f.cursors == [] ==> conn.pageInfo.startCursor.NoCursor? && conn.pageInfo.endCursor.NoCursor?)
    && (f.cursors != [] ==>
          conn.pageInfo.startCursor == f.cursors[0] && conn.pageInfo.endCursor == f.cursors[|f.cursors| - 1])
    && conn.pageInfo.hasNextPage == (if k.before then !k.cursor.NoCursor? else f.truncated)
    && conn.pageInfo.hasPreviousPage == (if k.before then f.truncated else !k.cursor.NoCursor?)
    && conn.totalCount == if f.total.Some? then f.total.value else -1
  }

  /** One edge per row, and the page info for the paging direction. */
  method Assemble(k: SeekState, nodes: seq<Row>, f: Fetched) returns (conn: Connection)
    requires nodes == f.rows && |f.rows| == |f.cursors|
    ensures Assembled(k, f, conn)
  {
    var edges: seq<Edge> := [];
    for i := 0 to |nodes|
      invariant |edges| == i
      invariant forall j :: 0 <= j < i ==> edges[j] == Edge(f.rows[j], f.cursors[j])
    {
      edges := edges + [Edge(nodes[i], f.cursors[i])];
    }
    conn := Connection(edges, RelayPageInfo(false, false, NoCursor, NoCursor), -1);
    var info := conn.pageInfo;
    if |f.cursors| > 0 {
      info := info.(startCursor := f.cursors[0], endCursor := f.cursors[|f.cursors| - 1]);
    }
    var pagedFromCursor := !k.cursor.NoCursor?;
    if k.before {
      info := info.(hasPreviousPage := f.truncated, hasNextPage := pagedFromCursor);
    } else {
      info := info.(hasNextPage := f.truncated, hasPreviousPage := pagedFromCursor);
    }
    conn := conn.(pageInfo := info);
    if f.total.Some? {
      conn := conn.(totalCount := f.total.value);
    }
  }

  method ListConnection(h: Host, q: Query, db: Db) returns (res: Result<Connection, Failure>)
    ensures q.err.Some? ==> res == Err(q.err.value)
    ensures q.err.None? && q.seek.None? ==> res == Err(NotSeeking)
    ensures q.err.None? && q.seek.Some? ==>
      match Fetch(h, q.State(), db)
      case Err(f) => res == Err(f)
      case Ok(f) => res.Ok? && Assembled(q.seek.value, f, res.value)
  {
    hide Fetch;
    hide PageRows;
    hide Assembled;
    if q.err.Some? {
      return Err(q.err.value);
    }
    if q.seek.None? {
      return Err(NotSeeking);
    }
    RowsMatch(h, q.State(), db);
    var rows := new Slice<Row>();
    assert rows.Contents() == [];
    var fetched := RunKeyset(h, q, db, rows);
    if fetched.Err? {
      return Err(fetched.error);
    }
    NothingBefore(PageRows(h, q.State(), db));
    var conn := Assemble(q.seek.value, rows.Contents(), fetched.value);
    res := Ok(conn);
  }

  lemma RowsMatch(h: Host, s: Spec, db: Db)
    requires s.seek.Some?
    ensures Fetch(h, s, db).Ok? ==>
      PageRows(h, s, db) == Fetch(h, s, db).value.rows &&
      |Fetch(h, s, db).value.cursors| == |Fetch(h, s, db).value.rows|
  {
    hide Page;
    hide EncodeAll;
    hide KeysOf;
    hide Total;
  }

  // ---------------------------------------------------------------- where a page stands

  /** The place of the cursor among the sorted filtered rows: the first row past it going forward, the first row not
      past it going backward. */
  ghost function CursorPlace(h: Host, s: Spec, db: Db): (cut: nat)
    requires s.seek.Some? && CursorFits(h, s.order, s.seek.value.cursor)
    ensures cut <= |Sorted(h, s, db)|
  {
    var b, view := Boundary(h, s.order, s.seek.value.cursor), Sorted(h, s, db);
    if b.None? then (if s.seek.value.before then |view| else 0)
    else Cut(h.env, s.dialect, s.order, b.value, s.seek.value.before, view)
  }

  function PageSize(k: SeekState): nat {
    if k.size < 0 then 0 else k.size
  }

  ghost function PageStart(h: Host, s: Spec, db: Db): (a: nat)
    requires s.seek.Some? && CursorFits(h, s.order, s.seek.value.cursor)
    ensures a <= CursorPlace(h, s, db)
  {
    var cut, size := CursorPlace(h, s, db), PageSize(s.seek.value);
    if !s.seek.value.before then cut else if cut < size then 0 else cut - size
  }

  ghost function PageEnd(h: Host, s: Spec, db: Db): (b: nat)
    requires s.seek.Some? && CursorFits(h, s.order, s.seek.value.cursor)
    ensures PageStart(h, s, db) <= b <= |Sorted(h, s, db)|
  {
    var cut, size, n := CursorPlace(h, s, db), PageSize(s.seek.value), |Sorted(h, s, db)|;
    if s.seek.value.before then cut else if n < cut + size then n else cut + size
  }

  /** The page is the stretch of the sorted filtered rows next to the cursor, each of its cursors marks
      its row, and `truncated` says whether it stops short of the end in the paging direction. */
  lemma PagePlace(h: Host, s: Spec, db: Db, f: Fetched)
    requires Ready(h, s) && Sound(h, s, db) && Fetch(h, s, db) == Ok(f)
    ensures var a, b, view := PageStart(h, s, db), PageEnd(h, s, db), Sorted(h, s, db);
      && f.rows == view[a..b] && |f.cursors| == b - a
      && (forall i :: 0 <= i < b - a ==> PointsAt(h, s.order, f.cursors[i], view[a + i]))
      && (f.truncated <==> if s.seek.value.before then a > 0 else b < |view|)
      && Ascending(h.env, s.dialect, s.order, view)
  {
    hide Fetch;
    hide Ready;
    hide Pageable;
    hide CursorFits;
    hide Faithful;
    hide Coming;
    hide PointsAt;
    hide KeyEncodable;
    hide Sound;
    hide EffectiveCond;
    hide Kept;
    hide SortRows;
    hide Nearest;
    hide PageStart;
    hide PageEnd;
    hide Ascending;
    ReadyFits(h, s);
    ViewAscends(h, s, db);
    FetchMeans(h, s, db);
    RowsPlace(h, s, db, f);
  }

  lemma RowsPlace(h: Host, s: Spec, db: Db, f: Fetched)
    requires s.seek.Some? && s.seek.value.size > 0 && CursorFits(h, s.order, s.seek.value.cursor)
    requires f.rows == Nearest(Coming(h, s, db), s.seek.value.size, s.seek.value.before)
    requires f.truncated <==> |Coming(h, s, db)| > s.seek.value.size
    requires |f.cursors| == |f.rows| && forall i :: 0 <= i < |f.rows| ==> PointsAt(h, s.order, f.cursors[i], f.rows[i])
    ensures var a, b, view := PageStart(h, s, db), PageEnd(h, s, db), Sorted(h, s, db);
      && f.rows == view[a..b]
      && (forall i :: 0 <= i < b - a ==> PointsAt(h, s.order, f.cursors[i], view[a + i]))
      && (f.truncated <==> if s.seek.value.before then a > 0 else b < |view|)
  {
    hide PointsAt;
    hide CursorFits;
    hide Coming;
    hide CursorPlace;
    hide Sorted;
    hide Nearest;
    hide EffectiveCond;
    ComingPlace(h, s, db);
    NearestPlace(Sorted(h, s, db), CursorPlace(h, s, db), s.seek.value.size, s.seek.value.before);
    var a, b, view := PageStart(h, s, db), PageEnd(h, s, db), Sorted(h, s, db);
    assert f.rows == view[a..b];
    hide PageStart;
    hide PageEnd;
    assert forall i :: 0 <= i < b - a ==> f.rows[i] == view[a + i];
  }

  lemma ComingPlace(h: Host, s: Spec, db: Db)
    requires s.seek.Some? && CursorFits(h, s.order, s.seek.value.cursor)
    ensures var view, cut := Sorted(h, s, db), CursorPlace(h, s, db);
      Coming(h, s, db) == if s.seek.value.before then view[..cut] else view[cut..]
  {
    hide EffectiveCond;
    hide CursorFits;
    hide Boundary;
    hide View;
    hide Cut;
    var view := Sorted(h, s, db);
    assert view[..|view|] == view == view[0..];
  }

  lemma NearestPlace(view: seq<Row>, cut: nat, size: nat, before: bool)
    requires cut <= |view|
    ensures before ==> Nearest(view[..cut], size, true) == view[if cut < size then 0 else cut - size..cut]
    ensures !before ==> (
        Nearest(view[cut..], size, false) == view[cut..if |view| < cut + size then |view| else cut + size])
  {
  }

  // ---------------------------------------------------------------- the page flags

  /** What section 5.1 asks of the flags: rows exist after, respectively before, the page, or on that
      side of the cursor when the page is empty. */
  ghost predicate FlagsExact(h: Host, s: Spec, db: Db, info: RelayPageInfo)
    requires s.seek.Some? && CursorFits(h, s.order, s.seek.value.cursor)
  {
    && info.hasNextPage == (PageEnd(h, s, db) < |Sorted(h, s, db)|)
    && info.hasPreviousPage == (PageStart(h, s, db) > 0)
  }

  /** Some filtered row is on the far side of the cursor, or stands at it. */
  ghost predicate RowBehind(h: Host, s: Spec, db: Db)
    requires s.seek.Some? && CursorFits(h, s.order, s.seek.value.cursor)
  {
    var b := Boundary(h, s.order, s.seek.value.cursor);
    && b.Some?
    && exists r :: (
        && r in Kept(h.env, EffectiveCond(s), Stored(s, db))
        && !Past(h.env, s.dialect, s.order, b.value, s.seek.value.before, r))
  }

  lemma BehindIffPlaced(h: Host, s: Spec, db: Db)
    requires s.seek.Some? && CursorFits(h, s.order, s.seek.value.cursor) && !s.seek.value.cursor.NoCursor?
    requires Ascending(h.env, s.dialect, s.order, Sorted(h, s, db))
    ensures RowBehind(h, s, db) <==>
      if s.seek.value.before then CursorPlace(h, s, db) < |Sorted(h, s, db)| else CursorPlace(h, s, db) > 0
  {
    hide EffectiveCond;
    hide CursorFits;
    var e, d, order, before := h.env, s.dialect, s.order, s.seek.value.before;
    var b, view := Boundary(h, order, s.seek.value.cursor).value, Sorted(h, s, db);
    hide Boundary;
    hide Kept;
    hide SortRows;
    hide Past;
    SortMembers(e, d, order, Kept(e, EffectiveCond(s), Stored(s, db)));
    CutSplits(e, d, order, b, before, view);
    var cut := Cut(e, d, order, b, before, view);
    hide Cut;
    if before && cut < |view| {
      assert !Past(e, d, order, b, true, view[cut]);
      assert view[cut] in view;
    }
    if !before && cut > 0 {
      assert !Past(e, d, order, b, false, view[0]);
      assert view[0] in view;
    }
  }

  /** Both flags are exact on a first page, and from a cursor exactly when some filtered row does not
      lie past it; the flag in the paging direction always is. */
  lemma FlagsMean(h: Host, s: Spec, db: Db, conn: Connection)
    requires Ready(h, s) && Sound(h, s, db) && Fetch(h, s, db).Ok?
    requires Assembled(s.seek.value, Fetch(h, s, db).value, conn)
    ensures if s.seek.value.before then conn.pageInfo.hasPreviousPage == (PageStart(h, s, db) > 0)
            else conn.pageInfo.hasNextPage == (PageEnd(h, s, db) < |Sorted(h, s, db)|)
    ensures FlagsExact(h, s, db, conn.pageInfo) <==> s.seek.value.cursor.NoCursor? || RowBehind(h, s, db)
  {
    hide Fetch;
    hide Ready;
    hide Pageable;
    hide Faithful;
    hide Sound;
    hide RowBehind;
    hide Sorted;
    hide CursorFits;
    hide PointsAt;
    ReadyFits(h, s);
    PagePlace(h, s, db, Fetch(h, s, db).value);
    if !s.seek.value.cursor.NoCursor? {
      BehindIffPlaced(h, s, db);
    }
  }

  // ---------------------------------------------------------------- seeking from an edge

  /** The query seeking from a given cursor. */
  function SeekFrom(s: Spec, c: Cursor, before: bool): (t: Spec)
    requires s.seek.Some?
    ensures t.seek.Some? && t.seek.value.before == before && t.seek.value.cursor == c
    ensures t.seek.value.size == s.seek.value.size
    ensures t.from == s.from && t.order == s.order && t.dialect == s.dialect && EffectiveCond(t) == EffectiveCond(s)
  {
    s.(seek := Some(s.seek.value.(cursor := c, before := before)))
  }

  /** A cursor that marks the j-th filtered row stands right at it. */
  lemma CursorAtRow(h: Host, s: Spec, db: Db, j: nat)
    requires s.seek.Some? && j < |Sorted(h, s, db)|
    requires PointsAt(h, s.order, s.seek.value.cursor, Sorted(h, s, db)[j])
    requires Ascending(h.env, s.dialect, s.order, Sorted(h, s, db))
    ensures CursorPlace(h, s, db) == if s.seek.value.before then j else j + 1
  {
    hide CursorFits;
    hide Boundary;
    hide EffectiveCond;
    hide Kept;
    hide SortRows;
    var e, d, order, before, view := h.env, s.dialect, s.order, s.seek.value.before, Sorted(h, s, db);
    CutAtRow(e, d, order, before, view, j);
    hide Cut;
  }

  lemma CutAtRow(e: Env, d: Dialect, order: seq<OrderTerm>, before: bool, view: seq<Row>, j: nat)
    requires j < |view| && Ascending(e, d, order, view)
    ensures Cut(e, d, order, RowPos(e, order, view[j]), before, view) == if before then j else j + 1
  {
    var b := RowPos(e, order, view[j]);
    var cut := Cut(e, d, order, b, before, view);
    CutSplits(e, d, order, b, before, view);
    hide Cut;
    hide Leads;
    if cut < |view| {
      LeadsRow(e, d, order, before, view, cut, j);
    }
    if cut > 0 {
      LeadsRow(e, d, order, before, view, cut - 1, j);
    }
  }

  lemma LeadsRow(e: Env, d: Dialect, order: seq<OrderTerm>, before: bool, view: seq<Row>, i: nat, j: nat)
    requires i < |view| && j < |view| && Ascending(e, d, order, view)
    ensures Leads(e, d, order, RowPos(e, order, view[j]), before, view[i]) <==> if before then i < j else i <= j
  {
    hide Before;
    hide RowPos;
    RowTrichotomy(e, d, order, view[i], view[j]);
    assert i < j ==> RowBefore(e, d, order, view[i], view[j]);
    assert j < i ==> RowBefore(e, d, order, view[j], view[i]);
  }

  lemma RowAt(h: Host, s: Spec, db: Db, f: Fetched, i: nat)
    requires Ready(h, s) && Sound(h, s, db) && Fetch(h, s, db) == Ok(f) && i < |f.cursors|
    ensures |f.rows| == |f.cursors| && PageStart(h, s, db) + i < PageEnd(h, s, db)
    ensures f.rows[i] == Sorted(h, s, db)[PageStart(h, s, db) + i]
    ensures PointsAt(h, s.order, f.cursors[i], f.rows[i])
    ensures Ascending(h.env, s.dialect, s.order, Sorted(h, s, db))
  {
    hide Fetch;
    hide Ready;
    hide PointsAt;
    hide Sorted;
    hide Faithful;
    hide PageStart;
    hide PageEnd;
    hide Pageable;
    hide CursorFits;
    hide Sound;
    hide Ascending;
    ReadyFits(h, s);
    PagePlace(h, s, db, f);
    var a, view := PageStart(h, s, db), Sorted(h, s, db);
    assert f.rows[i] == view[a + i];
  }

  /** Where a page that seeks from the cursor of edge i stands. */
  lemma EdgePlaces(h: Host, s: Spec, db: Db, f: Fetched, i: nat, before: bool)
    requires Ready(h, s) && Sound(h, s, db) && Fetch(h, s, db) == Ok(f) && i < |f.cursors|
    ensures var t, at := SeekFrom(s, f.cursors[i], before), PageStart(h, s, db) + i;
      && at < PageEnd(h, s, db) && |f.rows| == |f.cursors| && f.rows[i] == Sorted(h, s, db)[at]
      && PointsAt(h, s.order, f.cursors[i], f.rows[i])
      && (if before then PageEnd(h, t, db) == at else PageStart(h, t, db) == at + 1)
      && RowBehind(h, t, db)
  {
    hide Fetch;
    hide Ready;
    hide EffectiveCond;
    hide PointsAt;
    hide Sorted;
    hide Faithful;
    hide SeekFrom;
    hide PageStart;
    hide PageEnd;
    hide Pageable;
    hide CursorFits;
    hide Sound;
    hide Ascending;
    hide RowBehind;
    ReadyFits(h, s);
    RowAt(h, s, db, f, i);
    PlaceFrom(h, s, db, f.cursors[i], PageStart(h, s, db) + i, before);
  }

  lemma PlaceFrom(h: Host, s: Spec, db: Db, c: Cursor, j: nat, before: bool)
    requires s.seek.Some? && j < |Sorted(h, s, db)|
    requires PointsAt(h, s.order, c, Sorted(h, s, db)[j])
    requires Ascending(h.env, s.dialect, s.order, Sorted(h, s, db))
    ensures var t := SeekFrom(s, c, before);
      && (if before then PageEnd(h, t, db) == j else PageStart(h, t, db) == j + 1)
      && RowBehind(h, t, db)
  {
    var t := SeekFrom(s, c, before);
    CursorAtRow(h, t, db, j);
    hide EffectiveCond;
    hide SortRows;
    hide Kept;
    hide Boundary;
    hide CursorPlace;
    SortMembers(h.env, s.dialect, s.order, Kept(h.env, EffectiveCond(s), Stored(s, db)));
    var r := Sorted(h, s, db)[j];
    RowTrichotomy(h.env, s.dialect, s.order, r, r);
    assert r in Kept(h.env, EffectiveCond(s), Stored(s, db));
    assert !Past(h.env, s.dialect, s.order, RowPos(h.env, s.order, r), before, r);
  }

  /** Going on from a page: the next one starts where it ends; before it, the preceding one ends where
      it starts. */
  lemma Neighbour(h: Host, s: Spec, db: Db, f: Fetched, before: bool)
    requires Ready(h, s) && Sound(h, s, db) && (s.cond.Some? ==> !Vacuous(s.cond.value))
    requires Fetch(h, s, db) == Ok(f) && f.cursors != []
    ensures var t := SeekFrom(s, if before then f.cursors[0] else f.cursors[|f.cursors| - 1], before);
      && Ready(h, t) && Sound(h, t, db)
      && if before then PageEnd(h, t, db) == PageStart(h, s, db)
        else PageStart(h, t, db) == PageEnd(h, s, db)
  {
    hide Fetch;
    hide Ready;
    hide EffectiveCond;
    hide PointsAt;
    hide Sorted;
    hide Faithful;
    hide PageStart;
    hide PageEnd;
    hide Pageable;
    hide CursorFits;
    hide Sound;
    hide RowBehind;
    hide Ascending;
    ReadyFits(h, s);
    PagePlace(h, s, db, f);
    var i := if before then 0 else |f.cursors| - 1;
    EdgePlaces(h, s, db, f, i, before);
    FromReady(h, s, db, f.cursors[i], f.rows[i], before);
  }

  /** Fetching after the cursor of edge i starts at the row following that edge, fetching before it ends
      at the row preceding it, and the page flags of both connections are exact. */
  lemma EdgeSeeks(h: Host, s: Spec, db: Db, f: Fetched, i: nat, before: bool, g: Fetched, conn: Connection)
    requires Ready(h, s) && Sound(h, s, db) && (s.cond.Some? ==> !Vacuous(s.cond.value))
    requires Fetch(h, s, db) == Ok(f) && i < |f.cursors|
    requires Fetch(h, SeekFrom(s, f.cursors[i], before), db) == Ok(g)
    requires Assembled(SeekFrom(s, f.cursors[i], before).seek.value, g, conn)
    ensures Ready(h, SeekFrom(s, f.cursors[i], before))
    ensures FlagsExact(h, SeekFrom(s, f.cursors[i], before), db, conn.pageInfo)
    ensures var view, at := Sorted(h, s, db), PageStart(h, s, db) + i;
      && at < |view| && |f.rows| == |f.cursors| && f.rows[i] == view[at]
      && (if before then (if at == 0 then g.rows == [] else g.rows != [] && g.rows[|g.rows| - 1] == view[at - 1])
          else if at + 1 == |view| then g.rows == [] else g.rows != [] && g.rows[0] == view[at + 1])
  {
    hide Fetch;
    hide Ready;
    hide EffectiveCond;
    hide PointsAt;
    hide Sorted;
    hide Faithful;
    hide Pageable;
    hide CursorFits;
    hide Sound;
    hide Ascending;
    hide RowBehind;
    hide FlagsExact;
    hide Assembled;
    hide CursorPlace;
    ReadyFits(h, s);
    EdgePlaces(h, s, db, f, i, before);
    FromReady(h, s, db, f.cursors[i], f.rows[i], before);
    var t := SeekFrom(s, f.cursors[i], before);
    ReadyFits(h, t);
    SameRows(h, s, f.cursors[i], before, db);
    PagePlace(h, t, db, g);
    FlagsMean(h, t, db, conn);
  }

  /** The flags also stay exact while others change the data, as long as the row the cursor was taken from
      is still there. */
  lemma FlagsExactWhileRowStays(h: Host, s: Spec, db: Db, f: Fetched, conn: Connection, r: Row)
    requires Ready(h, s) && Sound(h, s, db) && Fetch(h, s, db) == Ok(f)
    requires Assembled(s.seek.value, f, conn)
    requires PointsAt(h, s.order, s.seek.value.cursor, r) && r in Kept(h.env, EffectiveCond(s), Stored(s, db))
    ensures CursorFits(h, s.order, s.seek.value.cursor)
    ensures FlagsExact(h, s, db, conn.pageInfo)
  {
    hide Fetch;
    hide Ready;
    hide EffectiveCond;
    hide Faithful;
    hide Pageable;
    hide CursorFits;
    hide Sound;
    hide FlagsExact;
    hide Assembled;
    hide Kept;
    hide RowPos;
    ReadyFits(h, s);
    FlagsMean(h, s, db, conn);
    RowTrichotomy(h.env, s.dialect, s.order, r, r);
    assert !Past(h.env, s.dialect, s.order, RowPos(h.env, s.order, r), s.seek.value.before, r);
  }

  lemma SameRows(h: Host, s: Spec, c: Cursor, before: bool, db: Db)
    requires s.seek.Some?
    ensures Sorted(h, SeekFrom(s, c, before), db) == Sorted(h, s, db)
  {
    hide EffectiveCond;
    hide View;
  }

  /** Going forward and then seeking before the new page's StartCursor brings back the page before
      it, row for row. */
  lemma ThereAndBack(h: Host, s: Spec, db: Db, first: Fetched, second: Fetched, back: Fetched)
    requires Ready(h, s) && Sound(h, s, db) && !s.seek.value.before
    requires s.cond.Some? ==> !Vacuous(s.cond.value)
    requires Fetch(h, s, db) == Ok(first) && first.truncated
    requires first.cursors != []
    requires Fetch(h, SeekFrom(s, first.cursors[|first.cursors| - 1], false), db) == Ok(second)
    requires second.cursors != [] && Fetch(h, SeekFrom(s, second.cursors[0], true), db) == Ok(back)
    ensures back.rows == first.rows
  {
    hide Fetch;
    hide EffectiveCond;
    hide PointsAt;
    hide Sorted;
    hide Faithful;
    hide Ready;
    hide Pageable;
    hide CursorFits;
    hide Sound;
    hide Ascending;
    hide CursorPlace;
    ReadyFits(h, s);
    var t := SeekFrom(s, first.cursors[|first.cursors| - 1], false);
    PagePlace(h, s, db, first);
    Neighbour(h, s, db, first, false);
    Neighbour(h, t, db, second, true);
    SameRows(h, s, second.cursors[0], true, db);
    PagePlace(h, SeekFrom(s, second.cursors[0], true), db, back);
  }

  lemma FromReady(h: Host, s: Spec, db: Db, c: Cursor, r: Row, before: bool)
    requires Ready(h, s) && (s.cond.Some? ==> !Vacuous(s.cond.value))
    requires PointsAt(h, s.order, c, r) && Sound(h, s, db)
    ensures Ready(h, SeekFrom(s, c, before)) && Sound(h, SeekFrom(s, c, before), db)
  {
    hide CursorFits;
    hide Faithful;
    hide Contract;
    hide Kept;
  }
}
