/**
  Concrete inputs: a host, query and table that meet the premises of the keyset theorems, and inputs on
  which the library misses what it promises.
 */
module Witness {
  import opened Connections
  import opened Cursors
  import opened Database
  import opened Dialects
  import opened Listing
  import opened Logic
  import opened Orders
  import opened Pages
  import opened Queries
  import opened Seek
  import opened Tiling
  import opened Views
  import opened Wrappers

  /** Numbers sort by value, everything else ties. */
  function SomeEnv(): Env {
    Env(
      (v: Value) => if v.Int? then v.n as real else 0.0,
      (o, a, b) => Unknown, (config, v, query) => Unknown, (config, v, query) => 0.0,
      (parts, r) => Unknown, src => [], (on, r) => Unknown,
      group => map[])
  }

  function Chars(bs: seq<Byte>): (s: string)
    ensures |s| == |bs| && forall i :: 0 <= i < |bs| ==> s[i] as int == bs[i]
  {
    if bs == [] then [] else [bs[0] as char] + Chars(bs[1..])
  }

  function CharBytes(s: string): (bs: Option<seq<Byte>>)
    ensures bs.Some? ==> |bs.value| == |s| && forall i :: 0 <= i < |s| ==> bs.value[i] == s[i] as int
    ensures bs.None? ==> exists i :: 0 <= i < |s| && s[i] as int >= 256
  {
    if s == "" then Some([])
    else if s[0] as int >= 256 then None
    else
      match CharBytes(s[1..])
      case None =>
        var i :| 0 <= i < |s[1..]| && s[1..][i] as int >= 256;
        assert s[i + 1] as int >= 256;
        None
      case Some(bs) => Some([s[0] as int] + bs)
  }

  /** Latin-1 for byte strings; no times and no floats. */
  function SomeCodec(): Codec {
    Codec(t => false, t => "", s => None, Chars, CharBytes, f => false, f => "", s => None)
  }

  lemma SomeCodecLawful()
    ensures Lawful(SomeCodec())
  {
    forall bs: seq<Byte>
      ensures SomeCodec().decodeBytes(SomeCodec().encodeBytes(bs)) == Some(bs)
    {
      var back := CharBytes(Chars(bs));
      if back.Some? {
        assert back.value == bs;
      }
    }
  }

  function Scan(col: string, v: Value): Go {
    if v.Null? then GoNil
    else if v.Int? && -0x8000_0000_0000_0000 <= v.n < 0x8000_0000_0000_0000 then GoInt(v.n)
    else GoOther(v)
  }

  function SomeHost(): Host {
    Host(
      SomeEnv(),
      (d, db, ts, args) => ExecSelect(SomeEnv(), d, db, ts, args),
      (d, db, ts, args) => ExecCount(SomeEnv(), d, db, ts, args),
      SomeCodec(), Scan, {"at", "id"})
  }

  lemma SomeHostFaithful()
    ensures Faithful(SomeHost())
  {
    hide ExecSelect;
    hide ExecCount;
    SomeCodecLawful();
  }

  /** Newest first, then by id. */
  function SomeOrder(): seq<OrderTerm> {
    [OrderTerm("at", true, NullsDefault, None), OrderTerm("id", false, NullsDefault, None)]
  }

  /** Pages of one row of the table `t`. */
  function SomeQuery(): Spec {
    Spec(Some(SourceSpec("t", "", 0)), [], None, [], None, SomeOrder(),
      PagingParams(None, None, None, None, false), Some(SeekState(NoCursor, false, 1, false)), Postgres,
      false, "", ScopeActive, None)
  }

  /** All rows are from the same time, so that the second column decides. */
  function Entry(id: int): Row {
    map["at" := Int(1), "id" := Int(id)]
  }

  function SomeTable(): seq<Row> {
    [Entry(2), Entry(1)]
  }

  function Holding(table: seq<Row>): Db {
    map["t" := table, "u" := []]
  }

  lemma SomeQueryReady()
    ensures Startable(SomeHost(), SomeQuery())
  {
    hide Faithful;
    SomeHostFaithful();
  }

  lemma SomeTableKept()
    ensures Kept(SomeEnv(), None, SomeTable()) == SomeTable()
  {
    var e, table := SomeEnv(), SomeTable();
    assert table[1..] == [table[1]] && table[1..][1..] == [];
    assert Kept(e, None, table[1..][1..]) == [];
    assert Kept(e, None, table[1..]) == [table[1]];
  }

  lemma SomeKeys(id: int)
    requires 0 <= id < 3
    ensures KeyFits(SomeHost(), SomeOrder(), Entry(id)) && KeyEncodable(SomeHost(), SomeOrder(), Entry(id))
  {
  }

  lemma SomeTableSound()
    ensures Kept(SomeEnv(), None, SomeTable()) == SomeTable()
    ensures Sound(SomeHost(), SomeQuery(), Holding(SomeTable()))
    ensures forall r :: r in SomeTable() ==> KeyEncodable(SomeHost(), SomeOrder(), r)
  {
    hide Kept;
    hide KeyFits;
    hide KeyEncodable;
    hide RowPos;
    SomeTableKept();
    SomePlaces(1);
    SomePlaces(2);
    SomeKeys(1);
    SomeKeys(2);
  }

  lemma SomePlaces(id: int)
    ensures RowPos(SomeEnv(), SomeOrder(), Entry(id)) == [Some(1.0), Some(id as real)]
  {
    var place := RowPos(SomeEnv(), SomeOrder(), Entry(id));
    assert place[0] == Some(1.0) && place[1] == Some(id as real);
  }

  lemma SomeBefore(i: int, j: int)
    ensures RowBefore(SomeEnv(), Postgres, SomeOrder(), Entry(i), Entry(j)) <==> i < j
  {
    hide RowPos;
    SomePlaces(i);
    SomePlaces(j);
    var dirs, a, b := Dirs(SomeOrder()), [Some(1.0), Some(i as real)], [Some(1.0), Some(j as real)];
    assert a[1..] == [a[1]] && b[1..] == [b[1]];
    assert !Before(Postgres, dirs[1..][1..], a[1..][1..], b[1..][1..]);
    assert Before(Postgres, dirs[1..], a[1..], b[1..]) <==> i < j;
  }

  lemma SomeTableInOrder()
    ensures Sorted(SomeHost(), SomeQuery(), Holding(SomeTable())) == [Entry(1), Entry(2)]
  {
    hide Kept;
    hide RowBefore;
    var e, order, table := SomeEnv(), SomeOrder(), SomeTable();
    SomeTableKept();
    SomeBefore(1, 2);
    assert table[1..] == [Entry(1)] && table[1..][1..] == [];
    assert SortRows(e, Postgres, order, table[1..][1..]) == [];
    assert SortRows(e, Postgres, order, table[1..]) == [Entry(1)];
    assert [Entry(1)][1..] == [];
    assert Insert(e, Postgres, order, Entry(2), [Entry(1)][1..]) == [Entry(2)];
  }

  /** All premises hold together; the run exists, and delivers one row per page. */
  lemma PremisesMeet() returns (dbs: seq<Db>, pages: seq<Fetched>)
    ensures var db := Holding(SomeTable());
      && Startable(SomeHost(), SomeQuery()) && Sound(SomeHost(), SomeQuery(), db)
      && IsRun(SomeHost(), SomeQuery(), dbs, pages) && Finished(pages)
      && (forall i :: 0 <= i < |dbs| ==> dbs[i] == db)
      && |pages| == 2 && Delivered(false, pages) == [Entry(1), Entry(2)]
  {
    hide Startable;
    hide Sound;
    hide IsRun;
    hide Coming;
    hide KeyEncodable;
    hide Kept;
    hide Sorted;
    hide Delivered;
    var db := Holding(SomeTable());
    SomeQueryReady();
    SomeTableSound();
    SomeTableInOrder();
    dbs, pages := ReadAll(SomeHost(), SomeQuery(), db);
    AllPages(SomeHost(), SomeQuery(), db, dbs, pages);
    assert FetchesFor(2, 1) == 1 + FetchesFor(1, 1);
  }

  /** They also hold from the cursor of the first row on, and that run delivers the other one. */
  lemma PremisesMeetFromCursor() returns (c: Cursor, dbs: seq<Db>, pages: seq<Fetched>)
    ensures PointsAt(SomeHost(), SomeOrder(), c, Entry(1))
    ensures var t, db := SeekFrom(SomeQuery(), c, false), Holding(SomeTable());
      && Startable(SomeHost(), t) && Sound(SomeHost(), t, db)
      && IsRun(SomeHost(), t, dbs, pages) && Finished(pages)
      && (forall i :: 0 <= i < |dbs| ==> dbs[i] == db)
      && Delivered(false, pages) == [Entry(2)]
  {
    hide Startable;
    hide Ready;
    hide Faithful;
    hide Pageable;
    hide PointsAt;
    hide CursorFits;
    hide Sound;
    hide IsRun;
    hide Coming;
    hide KeyEncodable;
    hide Kept;
    hide Sorted;
    hide Delivered;
    var h, s, db := SomeHost(), SomeQuery(), Holding(SomeTable());
    c := CursorOfFirst();
    SomeQueryReady();
    StartableFits(h, s);
    SomeTableSound();
    FromReady(h, s, db, c, Entry(1), false);
    var t := SeekFrom(s, c, false);
    StartsFrom(c);
    dbs, pages := ReadAll(h, t, db);
    SomeComing(c);
  }

  lemma StartsFrom(c: Cursor)
    requires Ready(SomeHost(), SeekFrom(SomeQuery(), c, false))
    ensures Startable(SomeHost(), SeekFrom(SomeQuery(), c, false))
    ensures CursorFits(SomeHost(), SomeOrder(), c)
  {
  }

  /** What lies past the cursor of the first row. */
  lemma SomeComing(c: Cursor)
    requires PointsAt(SomeHost(), SomeOrder(), c, Entry(1)) && CursorFits(SomeHost(), SomeOrder(), c)
    ensures Coming(SomeHost(), SeekFrom(SomeQuery(), c, false), Holding(SomeTable())) == [Entry(2)]
  {
    hide PointsAt;
    hide CursorFits;
    hide Sorted;
    hide Kept;
    hide Coming;
    hide RowBefore;
    hide CursorPlace;
    hide Sound;
    hide Contract;
    var h, s, db := SomeHost(), SomeQuery(), Holding(SomeTable());
    SomeTableInOrder();
    SomeBefore(1, 2);
    SameRows(h, s, c, false, db);
    CursorAtRow(h, SeekFrom(s, c, false), db, 0);
    ComingPlace(h, SeekFrom(s, c, false), db);
  }

  lemma CursorOfFirst() returns (c: Cursor)
    ensures PointsAt(SomeHost(), SomeOrder(), c, Entry(1))
  {
    hide Faithful;
    hide PointsAt;
    hide Encode;
    hide KeyOf;
    hide KeyFits;
    hide KeyEncodable;
    SomeHostFaithful();
    SomeKeys(1);
    CursorOfRow(SomeHost(), SomeOrder(), Entry(1));
    c := Encode(SomeHost().codec, KeyOf(SomeHost(), SomeOrder(), Entry(1))).value;
  }

  // ---------------------------------------------------------------- promises that fail

  lemma SomeTableListed(s: Spec)
    requires EffectiveCond(s) == None && !HasGrouping(s) && Stored(s, Holding(SomeTable())) == SomeTable()
    ensures |Records(SomeHost(), s, Holding(SomeTable()))| == 2
  {
    hide Kept;
    hide SortRows;
    SomeTableKept();
    SortMembers(SomeEnv(), s.dialect, s.order, Kept(SomeEnv(), None, SomeTable()));
  }

  /** List with First 1 over two rows, into a `dest` that already holds two: the trim counts from the
      start of `dest`, so the page is dropped, and with it one of the rows that were there. */
  lemma TrimLosesRows()
    ensures var s := SomeQuery().(seek := None, paging := PagingParams(None, None, Some(1), None, false));
      var done := Offsets(SomeHost(), s, Holding(SomeTable()));
      && done.Ok? && |DestAfter([], done.value)| == 1
      && DestAfter(SomeTable(), done.value) == SomeTable()[..1]
  {
    hide Executes;
    hide Read;
    hide Records;
    var s := SomeQuery().(seek := None, paging := PagingParams(None, None, Some(1), None, false));
    SomeHostFaithful();
    SomeTableListed(s);
    assert s.order[0].rank.None? && s.order[1..][0].rank.None?;
    ReadMeans(SomeHost(), s, Holding(SomeTable()), (1, 0), false, 0);
    assert Offsets(SomeHost(), s, Holding(SomeTable())) == Read(SomeHost(), s, Holding(SomeTable()), (1, 0), false, 0);
    var l := Offsets(SomeHost(), s, Holding(SomeTable())).value;
    assert (SomeTable() + l.scanned)[..1] == SomeTable()[..1];
  }

  /** Seeking after the row with id 1 when that row has been deleted and only id 2 is left: the connection
      says that a previous page exists, and there is none. */
  lemma StaleCursorFlag() returns (c: Cursor, f: Fetched, conn: Connection)
    ensures PointsAt(SomeHost(), SomeOrder(), c, Entry(1))
    ensures var t, left := SeekFrom(SomeQuery(), c, false), Holding([Entry(2)]);
      && Ready(SomeHost(), t) && Sound(SomeHost(), t, left)
      && Fetch(SomeHost(), t, left) == Ok(f) && Assembled(t.seek.value, f, conn)
      && conn.pageInfo.hasPreviousPage && PageStart(SomeHost(), t, left) == 0
  {
    hide Fetch;
    hide Startable;
    hide Faithful;
    hide Pageable;
    hide PointsAt;
    hide Ready;
    hide Sound;
    hide Assembled;
    hide KeyEncodable;
    hide CursorFits;
    hide PageStart;
    hide Kept;
    hide EffectiveCond;
    c := CursorOfFirst();
    var t, left := SeekFrom(SomeQuery(), c, false), Holding([Entry(2)]);
    StaleMeets(c);
    StartableFits(SomeHost(), t);
    FetchSucceeds(SomeHost(), t, left);
    RowsMatch(SomeHost(), t, left);
    f := Fetch(SomeHost(), t, left).value;
    StaleCursorSet(c);
    conn := SomeConnection(t.seek.value, f);
    StalePlace(c);
  }

  lemma StaleCursorSet(c: Cursor)
    requires PointsAt(SomeHost(), SomeOrder(), c, Entry(1))
    ensures !c.NoCursor?
  {
  }

  lemma SomeConnection(k: SeekState, f: Fetched) returns (conn: Connection)
    requires |f.rows| == |f.cursors|
    ensures Assembled(k, f, conn)
    ensures !k.before ==> conn.pageInfo.hasPreviousPage == !k.cursor.NoCursor?
  {
    conn := Connection(
      seq(|f.rows|, i requires 0 <= i < |f.rows| => Edge(f.rows[i], f.cursors[i])),
      RelayPageInfo(
        if k.before then !k.cursor.NoCursor? else f.truncated,
        if k.before then f.truncated else !k.cursor.NoCursor?,
        if f.cursors == [] then NoCursor else f.cursors[0],
        if f.cursors == [] then NoCursor else f.cursors[|f.cursors| - 1]),
      if f.total.Some? then f.total.value else -1);
  }

  lemma LeftKept()
    ensures var left := [Entry(2)]; Kept(SomeEnv(), None, left) == left
  {
    var left: seq<Row> := [Entry(2)];
    assert left[1..] == [];
    assert Kept(SomeEnv(), None, left[1..]) == [];
  }

  /** The cursor of the deleted row still meets all premises on what is left. */
  lemma StaleMeets(c: Cursor)
    requires PointsAt(SomeHost(), SomeOrder(), c, Entry(1))
    ensures var t, left := SeekFrom(SomeQuery(), c, false), Holding([Entry(2)]);
      && Startable(SomeHost(), t) && Sound(SomeHost(), t, left)
      && forall r :: r in Kept(SomeHost().env, EffectiveCond(t), [Entry(2)]) ==> KeyEncodable(SomeHost(), t.order, r)
  {
    hide Faithful;
    hide PointsAt;
    hide Pageable;
    hide Ready;
    hide CursorFits;
    hide KeyFits;
    hide KeyEncodable;
    hide Kept;
    SomeQueryReady();
    SomeTableSound();
    FromReady(SomeHost(), SomeQuery(), Holding(SomeTable()), c, Entry(1), false);
    LeftKept();
    SomeKeys(2);
  }

  /** And it stands in front of all of it. */
  lemma StalePlace(c: Cursor)
    requires PointsAt(SomeHost(), SomeOrder(), c, Entry(1))
    ensures PageStart(SomeHost(), SeekFrom(SomeQuery(), c, false), Holding([Entry(2)])) == 0
  {
    hide CursorFits;
    hide Boundary;
    hide Kept;
    var e, order, left: seq<Row> := SomeEnv(), SomeOrder(), [Entry(2)];
    LeftKept();
    assert left[1..] == [];
    assert SortRows(e, Postgres, order, left[1..]) == [];
    assert SortRows(e, Postgres, order, left) == left;
    var b := RowPos(e, order, Entry(1));
    SomeBefore(2, 1);
    assert !Leads(e, Postgres, order, b, false, left[0]);
  }
}
