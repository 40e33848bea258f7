/**
  Which rows a keyset page holds. On the sorted view of the filtered rows a boundary leaves the
  rows strictly past it; a page is the nearest `size` of them, in natural order.
 */
module Pages {
  import opened Conditions
  import opened Cursors
  import opened Database
  import opened Dialects
  import opened Keyset
  import opened Logic
  import opened Orders
  import opened Queries
  import opened Seek
  import opened Slices
  import opened Views
  import opened Wrappers

  // ---------------------------------------------------------------- the reference page

  /** The rows of a sorted view that lie strictly past the boundary; all of them without one. */
  function Beyond(e: Env, d: Dialect, order: seq<OrderTerm>, b: Option<seq<Pos>>, before: bool,
      view: seq<Row>): seq<Row>
    requires b.Some? ==> |b.value| == |order|
  {
    if b.None? then view
    else if before then view[..Cut(e, d, order, b.value, true, view)]
    else view[Cut(e, d, order, b.value, false, view)..]
  }

  /** The `size` rows nearest the boundary: the first ones going forward, the last ones going backward. */
  function Nearest(rows: seq<Row>, size: nat, before: bool): seq<Row> {
    if |rows| <= size then rows
    else if before then rows[|rows| - size..]
    else rows[..size]
  }

  /** All filtered rows, sorted. */
  function Sorted(h: Host, s: Spec, db: Db): seq<Row> {
    View(h.env, s.dialect, s.order, EffectiveCond(s), Stored(s, db))
  }

  // ---------------------------------------------------------------- what a fetch is given

  /** The query can be paged: Seek admits it, it groups nothing, and its filter is well formed, also next
      to a seek predicate. */
  predicate Pageable(h: Host, s: Spec) {
    && Admissible(h, s) && !HasGrouping(s)
    && WellFormedFilter(s)
    && (!s.seek.value.cursor.NoCursor? && s.cond.Some? ==> !Vacuous(s.cond.value))
  }

  /** The documented contract on the data: unique keys, NULL only where a placement is declared, and
      times and floats that their text forms can hold. */
  ghost predicate Contract(h: Host, order: seq<OrderTerm>, rows: seq<Row>) {
    && UniqueKeys(h.env, order, rows)
    && forall r :: r in rows ==> KeyFits(h, order, r)
  }

  predicate KeyFits(h: Host, order: seq<OrderTerm>, r: Row) {
    forall i :: 0 <= i < |order| ==> (
      && (order[i].nulls == NullsDefault ==> !Col(r, order[i].col).Null?)
      && TextOk(h.codec, h.scan(order[i].col, Col(r, order[i].col))))
  }

  /** The cursor decodes to one value per term, NULL only where a placement is declared. */
  predicate CursorFits(h: Host, order: seq<OrderTerm>, c: Cursor) {
    c.NoCursor? ||
    match Decode(h.codec, c)
    case Err(_) => false
    case Ok(vals) =>
      && |vals| == |order|
      && forall i :: 0 <= i < |order| && order[i].nulls == NullsDefault ==> !SqlOf(vals[i]).Null?
  }

  /** What a fetch asks of the query, its cursor and its host, ... */
  ghost predicate Ready(h: Host, s: Spec) {
    Faithful(h) && Pageable(h, s) && CursorFits(h, s.order, s.seek.value.cursor)
  }

  lemma ReadyFits(h: Host, s: Spec)
    requires Ready(h, s)
    ensures s.seek.Some? && s.seek.value.size > 0 && CursorFits(h, s.order, s.seek.value.cursor)
    ensures Faithful(h) && Pageable(h, s)
  {
  }

  /** ... and of the database: it has the table, with contents that keep the contract. */
  ghost predicate Sound(h: Host, s: Spec, db: Db) {
    Known(s, db) && Contract(h, s.order, Kept(h.env, EffectiveCond(s), Stored(s, db)))
  }

  /** Where the cursor stands. */
  function Boundary(h: Host, order: seq<OrderTerm>, c: Cursor): (b: Option<seq<Pos>>)
    requires CursorFits(h, order, c)
    ensures b.Some? <==> !c.NoCursor?
    ensures b.Some? ==> |b.value| == |order|
  {
    if c.NoCursor? then None else Some(ValuesPos(h.env, SqlValues(Decode(h.codec, c).value)))
  }

  // ---------------------------------------------------------------- the filter with the seek predicate

  lemma {:induction false} UniqueSubset(e: Env, order: seq<OrderTerm>, base: Option<Cond>, c: Option<Cond>,
      table: seq<Row>)
    requires UniqueKeys(e, order, Kept(e, base, table))
    requires forall r :: r in table && Holds(e, c, r) ==> Holds(e, base, r)
    ensures UniqueKeys(e, order, Kept(e, c, table))
  {
    if table != [] {
      hide Holds;
      hide RowPos;
      var rest := table[1..];
      assert table == [table[0]] + rest;
      if Holds(e, base, table[0]) {
        assert Kept(e, base, table)[1..] == Kept(e, base, rest);
      }
      UniqueTail(e, order, base, table);
      UniqueSubset(e, order, base, c, rest);
      if Holds(e, c, table[0]) {
        KeptMembers(e, c, rest);
        KeptMembers(e, base, rest);
        assert Holds(e, base, table[0]);
        HeadUnique(e, order, Kept(e, base, table), Kept(e, c, rest));
      }
    }
  }

  lemma UniqueTail(e: Env, order: seq<OrderTerm>, base: Option<Cond>, table: seq<Row>)
    requires table != [] && UniqueKeys(e, order, Kept(e, base, table))
    ensures UniqueKeys(e, order, Kept(e, base, table[1..]))
  {
    hide Holds;
    hide RowPos;
    if Holds(e, base, table[0]) {
      var all := Kept(e, base, table);
      assert forall i :: 0 <= i < |all[1..]| ==> all[1..][i] == all[i + 1];
    }
  }

  lemma HeadUnique(e: Env, order: seq<OrderTerm>, all: seq<Row>, some: seq<Row>)
    requires all != [] && UniqueKeys(e, order, all) && UniqueKeys(e, order, some)
    requires forall r :: r in some ==> r in all[1..]
    ensures UniqueKeys(e, order, [all[0]] + some)
  {
    hide RowPos;
    forall j | 0 <= j < |some|
      ensures RowPos(e, order, all[0]) != RowPos(e, order, some[j])
    {
      assert some[j] in all[1..];
      var k :| 1 <= k < |all| && all[k] == some[j];
    }
  }

  /** The filter with the seek predicate is well formed, ... */
  lemma SeekFilterClean(h: Host, s: Spec)
    requires Pageable(h, s) && SeekFilter(h, s).Ok?
    ensures CleanFilter(SeekFilter(h, s).value)
  {
    ScopeApplies(h.env, s, map[]);
    if !s.seek.value.cursor.NoCursor? {
      var vals, before := SqlValues(Decode(h.codec, s.seek.value.cursor).value), s.seek.value.before;
      SeekCondClean(s.order, vals, before);
      EffectiveSolid(s);
      hide SeekCond;
      hide EffectiveCond;
      JoinSeek(h.env, EffectiveCond(s), SeekCond(s.order, vals, before), map[]);
    }
  }

  lemma FitsDecodes(h: Host, s: Spec)
    requires s.seek.Some? && CursorFits(h, s.order, s.seek.value.cursor)
    ensures SeekFilter(h, s).Ok?
  {
  }

  /** ... and keeps the base rows that lie past the boundary. */
  lemma SeekFilterKeeps(h: Host, s: Spec, r: Row)
    requires Pageable(h, s) && CursorFits(h, s.order, s.seek.value.cursor) && SeekFilter(h, s).Ok?
    requires Holds(h.env, EffectiveCond(s), r) ==> KeyFits(h, s.order, r)
    ensures var b := Boundary(h, s.order, s.seek.value.cursor);
      Holds(h.env, SeekFilter(h, s).value, r) <==>
      (Holds(h.env, EffectiveCond(s), r) &&
       (b.Some? ==> Past(h.env, s.dialect, s.order, b.value, s.seek.value.before, r)))
  {
    hide EffectiveCond;
    hide Past;
    hide SeekCond;
    hide Holds;
    hide WellFormedFilter;
    hide Decode;
    PageableFits(h, s);
    if !s.seek.value.cursor.NoCursor? {
      var vals, before := SqlValues(Decode(h.codec, s.seek.value.cursor).value), s.seek.value.before;
      SeekCondClean(s.order, vals, before);
      EffectiveSolid(s);
      if Holds(h.env, EffectiveCond(s), r) {
        SeekCondMeans(h.env, s.dialect, s.order, vals, before, r);
      }
      JoinSeek(h.env, EffectiveCond(s), SeekCond(s.order, vals, before), r);
    }
  }

  /** Where the cursor stands, whether or not the contract on NULL is kept. */
  function CursorPos(h: Host, s: Spec): (b: seq<Pos>)
    requires s.seek.Some? && SeekFilter(h, s).Ok? && !s.seek.value.cursor.NoCursor?
    ensures |b| == |s.order|
  {
    ValuesPos(h.env, SqlValues(Decode(h.codec, s.seek.value.cursor).value))
  }

  lemma SeekFilterSound(h: Host, s: Spec, r: Row)
    requires Pageable(h, s) && SeekFilter(h, s).Ok? && Holds(h.env, SeekFilter(h, s).value, r)
    ensures Holds(h.env, EffectiveCond(s), r)
    ensures !s.seek.value.cursor.NoCursor? ==> Past(h.env, s.dialect, s.order, CursorPos(h, s), s.seek.value.before, r)
  {
    hide EffectiveCond;
    hide Past;
    hide SeekCond;
    hide Holds;
    hide WellFormedFilter;
    hide Decode;
    PageableFits(h, s);
    if !s.seek.value.cursor.NoCursor? {
      var vals, before := SqlValues(Decode(h.codec, s.seek.value.cursor).value), s.seek.value.before;
      SeekCondClean(s.order, vals, before);
      EffectiveSolid(s);
      JoinSeek(h.env, EffectiveCond(s), SeekCond(s.order, vals, before), r);
      SeekCondSound(h.env, s.dialect, s.order, vals, before, r);
    }
  }

  lemma EffectiveSolid(s: Spec)
    requires WellFormedFilter(s) && (s.cond.Some? ==> !Vacuous(s.cond.value))
    ensures EffectiveCond(s).Some? ==> Clean(EffectiveCond(s).value) && !Vacuous(EffectiveCond(s).value)
  {
    if Scoped(s) && s.cond.Some? {
      BothPresent(s.cond.value, ScopeCond(s));
      hide And;
      var both := [s.cond.value, ScopeCond(s)];
      assert both[0] == s.cond.value && both[1] == ScopeCond(s);
      assert Clean(ScopeCond(s)) && !Vacuous(ScopeCond(s));
      assert Clean(Group(false, both)) && !Vacuous(Group(false, both));
    }
  }

  lemma JoinSeek(e: Env, base: Option<Cond>, seek: Cond, r: Row)
    requires base.Some? ==> Clean(base.value) && !Vacuous(base.value)
    requires Clean(seek) && !Vacuous(seek)
    ensures Clean(And([base, Some(seek)]))
    ensures Holds(e, Some(And([base, Some(seek)])), r) <==> Holds(e, base, r) && Eval(e, seek, r) == True
  {
    hide Eval;
    if base.Some? {
      BothPresent(base.value, seek);
      hide And;
      var both := [base.value, seek];
      BothHold(e, base.value, seek, r);
      assert both[0] == base.value && both[1] == seek;
      assert Clean(Group(false, both)) && !Vacuous(Group(false, both));
    } else {
      OnePresent(seek);
      hide And;
      SingleChild(e, false, seek, r);
      assert [seek][0] == seek;
      assert Clean(Group(false, [seek])) && !Vacuous(Group(false, [seek]));
    }
  }

  lemma OnePresent(c: Cond)
    ensures And([None, Some(c)]) == Group(false, [c])
  {
    var conds := [None, Some(c)];
    assert conds[1..] == [Some(c)];
    assert conds[1..][1..] == [];
    assert Present(conds[1..]) == [c];
    assert Present(conds) == [] + [c];
  }

  // ---------------------------------------------------------------- views past a boundary

  /** Sorting only the rows past the boundary gives the part of the full view past it ... */
  lemma ForwardView(e: Env, d: Dialect, order: seq<OrderTerm>, base: Option<Cond>, c: Option<Cond>,
      b: Option<seq<Pos>>, table: seq<Row>)
    requires b.Some? ==> |b.value| == |order|
    requires UniqueKeys(e, order, Kept(e, base, table))
    requires forall r :: r in table ==> (
        Holds(e, c, r) <==> Holds(e, base, r) && (b.Some? ==> Past(e, d, order, b.value, false, r)))
    ensures View(e, d, order, c, table) == Beyond(e, d, order, b, false, View(e, d, order, base, table))
    ensures Ascending(e, d, order, View(e, d, order, base, table))
  {
    hide Holds;
    hide Past;
    hide SortRows;
    hide Kept;
    hide UniqueKeys;
    var view := View(e, d, order, base, table);
    var past := Beyond(e, d, order, b, false, view);
    UniqueSubset(e, order, base, c, table);
    SortAscends(e, d, order, Kept(e, base, table));
    SortAscends(e, d, order, Kept(e, c, table));
    ViewMembers(e, d, order, base, table);
    ViewMembers(e, d, order, c, table);
    if b.Some? {
      CutSplits(e, d, order, b.value, false, view);
      PartMembers(e, d, order, b.value, false, view);
    }
    SubAscends(e, d, order, view, if b.Some? then Cut(e, d, order, b.value, false, view) else 0);
    assert past == view[if b.Some? then Cut(e, d, order, b.value, false, view) else 0..];
    ArrangementUnique(e, d, order, View(e, d, order, c, table), past);
  }

  /** ... and under the reversed terms gives it in the opposite order. */
  lemma BackwardView(e: Env, d: Dialect, order: seq<OrderTerm>, base: Option<Cond>, c: Option<Cond>,
      b: Option<seq<Pos>>, table: seq<Row>)
    requires b.Some? ==> |b.value| == |order|
    requires UniqueKeys(e, order, Kept(e, base, table))
    requires forall r :: r in table ==> (
        Holds(e, c, r) <==> Holds(e, base, r) && (b.Some? ==> Past(e, d, order, b.value, true, r)))
    ensures View(e, d, Reversed(order), c, table) ==
      Flipped(Beyond(e, d, order, b, true, View(e, d, order, base, table)))
    ensures Ascending(e, d, order, View(e, d, order, base, table))
  {
    hide Holds;
    hide Past;
    hide SortRows;
    hide Kept;
    hide UniqueKeys;
    var view := View(e, d, order, base, table);
    var past := Beyond(e, d, order, b, true, view);
    UniqueSubset(e, order, base, c, table);
    UniqueReversed(e, order, Kept(e, c, table));
    SortAscends(e, d, order, Kept(e, base, table));
    SortAscends(e, d, Reversed(order), Kept(e, c, table));
    ViewMembers(e, d, order, base, table);
    ViewMembers(e, d, Reversed(order), c, table);
    if b.Some? {
      CutSplits(e, d, order, b.value, true, view);
      PartMembers(e, d, order, b.value, true, view);
    }
    FlippedAscends(e, d, order, past);
    FlippedMembers(past);
    ArrangementUnique(e, d, Reversed(order), View(e, d, Reversed(order), c, table), Flipped(past));
  }

  lemma ViewMembers(e: Env, d: Dialect, order: seq<OrderTerm>, c: Option<Cond>, table: seq<Row>)
    ensures forall r :: r in View(e, d, order, c, table) <==> r in table && Holds(e, c, r)
    ensures |View(e, d, order, c, table)| == |Kept(e, c, table)|
  {
    hide Holds;
    hide Kept;
    hide SortRows;
    KeptMembers(e, c, table);
    SortMembers(e, d, order, Kept(e, c, table));
  }

  lemma PartMembers(e: Env, d: Dialect, order: seq<OrderTerm>, b: seq<Pos>, before: bool, view: seq<Row>)
    requires |b| == |order|
    requires forall i :: 0 <= i < |view| ==> (
        Leads(e, d, order, b, before, view[i]) <==> i < Cut(e, d, order, b, before, view))
    ensures var cut := Cut(e, d, order, b, before, view);
      && (forall r :: r in view[..cut] <==> r in view && Leads(e, d, order, b, before, r))
      && (forall r :: r in view[cut..] <==> r in view && !Leads(e, d, order, b, before, r))
  {
    hide Leads;
    var cut := Cut(e, d, order, b, before, view);
    assert view == view[..cut] + view[cut..];
    forall r | r in view[..cut]
      ensures Leads(e, d, order, b, before, r)
    {
      var i :| 0 <= i < cut && view[i] == r;
    }
    forall r | r in view[cut..]
      ensures !Leads(e, d, order, b, before, r)
    {
      var i :| cut <= i < |view| && view[i] == r;
    }
  }

  lemma SubAscends(e: Env, d: Dialect, order: seq<OrderTerm>, view: seq<Row>, n: nat)
    requires n <= |view| && Ascending(e, d, order, view)
    ensures Ascending(e, d, order, view[n..]) && Ascending(e, d, order, view[..n])
  {
    hide RowBefore;
  }

  lemma UniqueReversed(e: Env, order: seq<OrderTerm>, rows: seq<Row>)
    requires UniqueKeys(e, order, rows)
    ensures UniqueKeys(e, Reversed(order), rows)
  {
    hide RowPos;
    forall i, j | 0 <= i < j < |rows|
      ensures RowPos(e, Reversed(order), rows[i]) != RowPos(e, Reversed(order), rows[j])
    {
      ReversedPositions(e, order, rows[i]);
      ReversedPositions(e, order, rows[j]);
    }
  }

  lemma FlippedAscends(e: Env, d: Dialect, order: seq<OrderTerm>, s: seq<Row>)
    requires Ascending(e, d, order, s)
    ensures Ascending(e, d, Reversed(order), Flipped(s))
  {
    hide RowBefore;
    hide Reversed;
    var t := Flipped(s);
    forall i, j | 0 <= i < j < |t|
      ensures RowBefore(e, d, Reversed(order), t[i], t[j])
    {
      assert t[i] == s[|s| - 1 - i] && t[j] == s[|s| - 1 - j];
      assert RowBefore(e, d, order, t[j], t[i]);
      RowReversed(e, d, order, t[i], t[j]);
    }
  }

  lemma RowReversed(e: Env, d: Dialect, order: seq<OrderTerm>, r: Row, s: Row)
    ensures RowBefore(e, d, Reversed(order), r, s) <==> RowBefore(e, d, order, s, r)
  {
    ReversedPositions(e, order, r);
    ReversedPositions(e, order, s);
    ReversedIsConverse(d, order, RowPos(e, order, r), RowPos(e, order, s));
  }

  lemma FlippedMembers<T>(s: seq<T>)
    ensures forall r :: r in Flipped(s) <==> r in s
  {
    var t := Flipped(s);
    forall r | r in s
      ensures r in t
    {
      var i :| 0 <= i < |s| && s[i] == r;
      assert t[|s| - 1 - i] == r;
    }
  }

  // ---------------------------------------------------------------- the page

  lemma PageTerms(s: Spec)
    requires s.seek.Some? && !HasRelevance(s.order)
    ensures PlainRanks(PageOrder(s)) && !HasRelevance(PageOrder(s))
  {
    ReversedTerms(s.order);
    PlainTerms(s.order);
    PlainTerms(Reversed(s.order));
  }

  lemma {:induction false} ReversedTerms(order: seq<OrderTerm>)
    ensures forall i :: 0 <= i < |order| ==> Reversed(order)[i].rank == order[i].rank
  {
    if order != [] {
      ReversedTerms(order[1..]);
    }
  }

  lemma {:induction false} PlainTerms(order: seq<OrderTerm>)
    requires !HasRelevance(order)
    ensures PlainRanks(order)
  {
    if order != [] {
      assert forall i :: 0 <= i < |order[1..]| ==> order[1..][i] == order[i + 1];
      PlainTerms(order[1..]);
    }
  }

  lemma TakeNearest(rows: seq<Row>, size: nat)
    ensures var raws := Window(rows, 0, Some(size + 1));
      PageOf(raws, size, false) == Nearest(rows, size, false) && (|raws| > size <==> |rows| > size)
  {
    assert rows[0..] == rows;
    if |rows| > size {
      assert rows[..size + 1][..size] == rows[..size];
    }
  }

  lemma FlipNearest(rows: seq<Row>, size: nat)
    ensures var raws := Window(Flipped(rows), 0, Some(size + 1));
      PageOf(raws, size, true) == Nearest(rows, size, true) && (|raws| > size <==> |rows| > size)
  {
    hide Flipped;
    var n := if |rows| > size then size else |rows|;
    assert Flipped(rows)[0..] == Flipped(rows);
    if |rows| > size {
      assert Flipped(rows)[..size + 1][..size] == Flipped(rows)[..size];
    } else {
      assert Flipped(rows)[..n] == Flipped(rows);
    }
    FlippedTake(rows, n);
  }

  lemma FlippedTake(s: seq<Row>, n: nat)
    requires n <= |s|
    ensures Flipped(Flipped(s)[..n]) == s[|s| - n..]
  {
    hide Flipped;
    var back, tail := Flipped(Flipped(s)[..n]), s[|s| - n..];
    forall i | 0 <= i < n
      ensures back[i] == tail[i]
    {
      FlippedTakeAt(s, n, i);
    }
  }

  lemma FlippedTakeAt(s: seq<Row>, n: nat, i: nat)
    requires i < n <= |s|
    ensures Flipped(Flipped(s)[..n])[i] == s[|s| - n..][i]
  {
    hide Flipped;
    var kept := Flipped(s)[..n];
    assert kept[n - 1 - i] == Flipped(s)[n - 1 - i];
  }

  lemma ViewAscends(h: Host, s: Spec, db: Db)
    requires Sound(h, s, db)
    ensures Ascending(h.env, s.dialect, s.order, Sorted(h, s, db))
  {
    hide EffectiveCond;
    hide Kept;
    SortAscends(h.env, s.dialect, s.order, Kept(h.env, EffectiveCond(s), Stored(s, db)));
  }

  /** The rows past the cursor, in natural order. */
  ghost function Coming(h: Host, s: Spec, db: Db): seq<Row>
    requires s.seek.Some? && CursorFits(h, s.order, s.seek.value.cursor)
  {
    Beyond(h.env, s.dialect, s.order, Boundary(h, s.order, s.seek.value.cursor), s.seek.value.before,
      Sorted(h, s, db))
  }

  /** A fetch returns exactly the nearest rows past its cursor, in natural order, and is truncated
      exactly when there are more of them than a page holds. */
  lemma PageMeans(h: Host, s: Spec, db: Db)
    requires Executes(h) && Pageable(h, s) && CursorFits(h, s.order, s.seek.value.cursor) && Sound(h, s, db)
    ensures Ascending(h.env, s.dialect, s.order, Sorted(h, s, db))
    ensures s.seek.value.size > 0
    ensures var rest := Coming(h, s, db);
      Page(h, s, db) == Ok((Nearest(rest, s.seek.value.size, s.seek.value.before), |rest| > s.seek.value.size))
  {
    hide Pageable;
    hide CursorFits;
    hide Boundary;
    hide SeekFilter;
    hide Holds;
    hide Past;
    hide EffectiveCond;
    hide Executes;
    hide ExecSelect;
    hide Refusal;
    hide Kept;
    hide Beyond;
    hide Nearest;
    hide Contract;
    PageableFits(h, s);
    FitsDecodes(h, s);
    SeekFilterClean(h, s);
    var e, d, order, before, size := h.env, s.dialect, s.order, s.seek.value.before, s.seek.value.size;
    var b, base, c := Boundary(h, order, s.seek.value.cursor), EffectiveCond(s), SeekFilter(h, s).value;
    RowsPast(h, s, db);
    RawsMean(h, s, c, db);
    hide Raws;
    if before {
      BackwardView(e, d, order, base, c, b, Stored(s, db));
      FlipNearest(Beyond(e, d, order, b, true, View(e, d, order, base, Stored(s, db))), size);
    } else {
      ForwardView(e, d, order, base, c, b, Stored(s, db));
      TakeNearest(Beyond(e, d, order, b, false, View(e, d, order, base, Stored(s, db))), size);
    }
  }

  lemma PageableFits(h: Host, s: Spec)
    requires Pageable(h, s)
    ensures s.seek.Some? && s.seek.value.size > 0 && Refusal(h, s).None? && !HasGrouping(s) && !HasRelevance(s.order)
  {
    RefusalExact(h, s);
    RelevanceAt(s.order);
  }

  /** Which rows of the table the filter with the seek predicate keeps. */
  lemma RowsPast(h: Host, s: Spec, db: Db)
    requires Pageable(h, s) && CursorFits(h, s.order, s.seek.value.cursor) && Sound(h, s, db) && SeekFilter(h, s).Ok?
    ensures UniqueKeys(h.env, s.order, Kept(h.env, EffectiveCond(s), Stored(s, db)))
    ensures var b := Boundary(h, s.order, s.seek.value.cursor);
      forall r :: r in Stored(s, db) ==> (
        Holds(h.env, SeekFilter(h, s).value, r) <==>
        Holds(h.env, EffectiveCond(s), r) &&
          (b.Some? ==> Past(h.env, s.dialect, s.order, b.value, s.seek.value.before, r)))
  {
    hide Pageable;
    hide CursorFits;
    hide Boundary;
    hide SeekFilter;
    hide Holds;
    hide Past;
    hide EffectiveCond;
    hide KeyFits;
    hide UniqueKeys;
    PageableFits(h, s);
    KeptMembers(h.env, EffectiveCond(s), Stored(s, db));
    hide Kept;
    forall r | r in Stored(s, db)
      ensures var b := Boundary(h, s.order, s.seek.value.cursor);
        Holds(h.env, SeekFilter(h, s).value, r) <==>
        Holds(h.env, EffectiveCond(s), r) &&
          (b.Some? ==> Past(h.env, s.dialect, s.order, b.value, s.seek.value.before, r))
    {
      SeekFilterKeeps(h, s, r);
    }
  }

  /** The statement's rows: the first of the rows that filter keeps, in page order, one more than a page. */
  lemma RawsMean(h: Host, s: Spec, c: Option<Cond>, db: Db)
    requires Executes(h) && Known(s, db) && s.seek.Some? && s.seek.value.size >= 0
    requires !HasGrouping(s) && !HasRelevance(s.order) && CleanFilter(c)
    ensures Raws(h, s, c, db) ==
      Some(Window(View(h.env, s.dialect, PageOrder(s), c, Stored(s, db)), 0, Some(s.seek.value.size + 1)))
  {
    hide Executes;
    hide ExecSelect;
    hide KeysetText;
    hide KeysetArgs;
    hide FilterText;
    hide SortRows;
    hide Results;
    hide CleanFilter;
    hide Window;
    hide Kept;
    var m, n, order := MarkerOf(s.dialect), |FilterArgs(c)|, PageOrder(s);
    PageTerms(s);
    hide PageOrder;
    NoHaving(s);
    KeysetMeans(h.env, s, c, order, db, s.seek.value.size + 1);
    NothingGrouped(h.env, s, c, Stored(s, db));
    Executed(h, s.dialect, db, KeysetText(m, s, FilterText(m, 0, c), n, order),
      KeysetArgs(s, FilterArgs(c), order, s.seek.value.size + 1));
  }

  lemma NoHaving(s: Spec)
    requires !HasGrouping(s)
    ensures CleanFilter(s.having)
  {
  }

  /** Even on data that breaks the contract, a page holds only filtered rows strictly past its cursor:
      it never repeats the row it seeks from. */
  lemma PageSound(h: Host, s: Spec, db: Db, r: Row)
    requires Executes(h) && Known(s, db) && Pageable(h, s) && SeekFilter(h, s).Ok?
    requires r in PageRows(h, s, db)
    ensures r in Kept(h.env, EffectiveCond(s), Stored(s, db))
    ensures !s.seek.value.cursor.NoCursor? ==> Past(h.env, s.dialect, s.order, CursorPos(h, s), s.seek.value.before, r)
  {
    hide Executes;
    hide Pageable;
    hide SeekFilter;
    hide Holds;
    hide Past;
    hide EffectiveCond;
    hide Refusal;
    hide Raws;
    hide Window;
    hide PageOf;
    hide Kept;
    hide SortRows;
    PageableFits(h, s);
    SeekFilterClean(h, s);
    var c := SeekFilter(h, s).value;
    RawsMean(h, s, c, db);
    PageOfMembers(Raws(h, s, c, db).value, s.seek.value.size, s.seek.value.before);
    WindowMembers(View(h.env, s.dialect, PageOrder(s), c, Stored(s, db)), s.seek.value.size + 1);
    ViewMembers(h.env, s.dialect, PageOrder(s), c, Stored(s, db));
    SeekFilterSound(h, s, r);
    KeptMembers(h.env, EffectiveCond(s), Stored(s, db));
  }

  lemma PageOfMembers(raws: seq<Row>, size: nat, before: bool)
    ensures forall r :: r in PageOf(raws, size, before) ==> r in raws
  {
    FlippedMembers(if |raws| > size then raws[..size] else raws);
  }

  lemma WindowMembers(rows: seq<Row>, n: nat)
    ensures forall r :: r in Window(rows, 0, Some(n)) ==> r in rows
  {
  }

  // ---------------------------------------------------------------- the cursors

  /** Every key of the row can be put into a cursor. */
  predicate KeyEncodable(h: Host, order: seq<OrderTerm>, r: Row) {
    forall i :: 0 <= i < |order| ==> Encodable(h.scan(order[i].col, Col(r, order[i].col)))
  }

  /** The cursor marks the row's place in the order. */
  predicate PointsAt(h: Host, order: seq<OrderTerm>, c: Cursor, r: Row) {
    !c.NoCursor? && CursorFits(h, order, c) && Boundary(h, order, c) == Some(RowPos(h.env, order, r))
  }

  /** A row's cursor exists exactly when its key is encodable; it decodes to the row's place in the
      order, so seeking by the token is seeking by the row. */
  lemma CursorOfRow(h: Host, order: seq<OrderTerm>, r: Row)
    requires Faithful(h) && KeyFits(h, order, r) && !HasRelevance(order)
    ensures Encode(h.codec, KeyOf(h, order, r)).Ok? <==> KeyEncodable(h, order, r)
    ensures Encode(h.codec, KeyOf(h, order, r)).Ok? ==> PointsAt(h, order, Encode(h.codec, KeyOf(h, order, r)).value, r)
  {
    var key := KeyOf(h, order, r);
    hide Encode;
    hide Decode;
    hide Encodable;
    hide KeyOf;
    hide TextOk;
    CursorRoundTrip(h.codec, key);
    if Encode(h.codec, key).Ok? {
      var c := Encode(h.codec, key).value;
      var vals := Canonicals(key);
      forall i | 0 <= i < |order|
        ensures ValuePos(h.env, SqlOf(vals[i])) == ValuePos(h.env, Col(r, order[i].col))
      {
        CanonicalBinds(key[i]);
      }
      hide Canonicals;
      assert CursorFits(h, order, c);
      assert ValuesPos(h.env, SqlValues(vals)) == RowPos(h.env, order, r);
    }
  }

  /** What a fetch delivers: the nearest rows past its cursor, each with a cursor that marks it,
      whether more rows lie in that direction, and the number of filtered rows if it was asked for.
      It fails exactly when some key on the page cannot be encoded. */
  lemma FetchMeans(h: Host, s: Spec, db: Db)
    requires Ready(h, s) && Sound(h, s, db)
    ensures s.seek.value.size > 0
    ensures var rest, size := Coming(h, s, db), s.seek.value.size;
      var rows := Nearest(rest, size, s.seek.value.before);
      && (Fetch(h, s, db).Ok? <==> forall r :: r in rows ==> KeyEncodable(h, s.order, r))
      && (Fetch(h, s, db).Err? ==> Fetch(h, s, db).error == KeyNotEncodable)
      && (Fetch(h, s, db).Ok? ==>
            var f := Fetch(h, s, db).value;
            && f.rows == rows
            && (f.truncated <==> |rest| > size)
            && |f.cursors| == |rows|
            && (forall i :: 0 <= i < |rows| ==> PointsAt(h, s.order, f.cursors[i], rows[i]))
            && f.total == if s.seek.value.total then Some(|Kept(h.env, EffectiveCond(s), Stored(s, db))|) else None)
  {
    PageMeans(h, s, db);
    TotalMeans(h, s, db);
    ComingKept(h, s, db);
    var rest, size := Coming(h, s, db), s.seek.value.size;
    var rows := Nearest(rest, size, s.seek.value.before);
    hide Page;
    hide Total;
    hide Pageable;
    hide CursorFits;
    hide EffectiveCond;
    hide Kept;
    hide Coming;
    hide Nearest;
    RowsEncode(h, s.order, rows);
    hide EncodeAll;
    hide KeyEncodable;
    hide PointsAt;
  }

  /** The filtered rows are those of the table that satisfy both the filter and the soft-delete scope. */
  lemma KeptInScope(e: Env, s: Spec, table: seq<Row>)
    requires WellFormedFilter(s)
    ensures forall r :: r in Kept(e, EffectiveCond(s), table) <==> r in table && Holds(e, s.cond, r) && Admits(s, r)
  {
    hide Holds;
    hide Admits;
    hide EffectiveCond;
    hide WellFormedFilter;
    KeptMembers(e, EffectiveCond(s), table);
    forall r
      ensures Holds(e, EffectiveCond(s), r) <==> Holds(e, s.cond, r) && Admits(s, r)
    {
      ScopeApplies(e, s, r);
    }
  }

  lemma TotalMeans(h: Host, s: Spec, db: Db)
    requires Executes(h) && Known(s, db) && Pageable(h, s)
    ensures Total(h, s, db) == Some(|Kept(h.env, EffectiveCond(s), Stored(s, db))|)
  {
    hide Executes;
    hide EffectiveCond;
    hide Refusal;
    hide FilterText;
    hide CountText;
    hide CountArgs;
    hide ExecCount;
    hide WellFormedFilter;
    hide Kept;
    hide Results;
    hide CleanFilter;
    var m, c := MarkerOf(s.dialect), EffectiveCond(s);
    ScopeApplies(h.env, s, map[]);
    NoHaving(s);
    CountMeans(h.env, s, c, db);
    NothingGrouped(h.env, s, c, Stored(s, db));
    Executed(h, s.dialect, db, CountText(m, s, FilterText(m, 0, c), |FilterArgs(c)|), CountArgs(s, FilterArgs(c)));
  }

  /** The rows' cursors, if all keys can be encoded. */
  lemma RowsEncode(h: Host, order: seq<OrderTerm>, rows: seq<Row>)
    requires Faithful(h) && !HasRelevance(order) && forall r :: r in rows ==> KeyFits(h, order, r)
    ensures var cs := EncodeAll(h.codec, KeysOf(h, order, rows));
      && (cs.Some? <==> forall r :: r in rows ==> KeyEncodable(h, order, r))
      && (cs.Some? ==> |cs.value| == |rows| && forall i :: 0 <= i < |rows| ==> PointsAt(h, order, cs.value[i], rows[i]))
  {
    hide KeyFits;
    hide PointsAt;
    hide KeyEncodable;
    hide Encode;
    hide KeyOf;
    hide EncodeAll;
    hide KeysOf;
    hide Faithful;
    hide HasRelevance;
    forall r | r in rows
      ensures Encode(h.codec, KeyOf(h, order, r)).Ok? <==> KeyEncodable(h, order, r)
      ensures Encode(h.codec, KeyOf(h, order, r)).Ok? ==>
        PointsAt(h, order, Encode(h.codec, KeyOf(h, order, r)).value, r)
    {
      CursorOfRow(h, order, r);
    }
    KeysEncode(h, order, rows);
  }

  lemma KeysEncode(h: Host, order: seq<OrderTerm>, rows: seq<Row>)
    ensures var cs := EncodeAll(h.codec, KeysOf(h, order, rows));
      && (cs.Some? <==> forall r :: r in rows ==> Encode(h.codec, KeyOf(h, order, r)).Ok?)
      && (cs.Some? ==> (
            && |cs.value| == |rows|
            && forall i :: 0 <= i < |rows| ==> Encode(h.codec, KeyOf(h, order, rows[i])) == Ok(cs.value[i])))
  {
    hide Encode;
    hide KeyOf;
    var keys := KeysOf(h, order, rows);
    var cs := EncodeAll(h.codec, keys);
    hide EncodeAll;
    hide KeysOf;
    if cs.Some? {
      forall i | 0 <= i < |rows|
        ensures Encode(h.codec, KeyOf(h, order, rows[i])) == Ok(cs.value[i])
      {
        assert keys[i] == KeyOf(h, order, rows[i]);
      }
    } else {
      var i :| 0 <= i < |keys| && Encode(h.codec, keys[i]).Err?;
      assert rows[i] in rows;
    }
  }

  /** The page's rows are filtered rows. */
  lemma ComingKept(h: Host, s: Spec, db: Db)
    requires s.seek.Some? && CursorFits(h, s.order, s.seek.value.cursor)
    ensures forall r :: r in Coming(h, s, db) ==> r in Kept(h.env, EffectiveCond(s), Stored(s, db))
    ensures s.seek.value.size > 0 ==>
      forall r :: r in Nearest(Coming(h, s, db), s.seek.value.size, s.seek.value.before) ==>
        r in Kept(h.env, EffectiveCond(s), Stored(s, db))
  {
    hide Kept;
    hide EffectiveCond;
    hide Cut;
    hide SortRows;
    hide Boundary;
    SortMembers(h.env, s.dialect, s.order, Kept(h.env, EffectiveCond(s), Stored(s, db)));
  }
}
