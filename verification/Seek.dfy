/**
  Keyset pagination: one fetch past a cursor. `Fetch` says what a fetch returns, built from the
  statement text as the code builds it, and `RunKeyset` computes it on a Go slice. `Pages` says
  which rows those are.
 */
module Seek {
  import opened Conditions
  import opened Cursors
  import opened Database
  import opened Dialects
  import opened Fluent
  import opened Keyset
  import opened Logic
  import opened Orders
  import opened Queries
  import opened Slices
  import opened Sql
  import opened Wrappers

  /** What surrounds a call: the database and the connection to it, the text codec, and the scan struct
      (which columns it has a field for, and the Go value a column is scanned into). */
  datatype Host = Host(
    env: Env,
    select: (Dialect, Db, seq<Token>, seq<Value>) -> Option<Answer>,
    count: (Dialect, Db, seq<Token>, seq<Value>) -> Option<nat>,
    codec: Codec, scan: (string, Value) -> Go, fields: set<string>)

  /** The connection hands statements to the database, which executes them. */
  ghost predicate Executes(h: Host) {
    && (forall d, db, ts, args {:trigger ExecSelect(h.env, d, db, ts, args)} ::
          h.select(d, db, ts, args) == ExecSelect(h.env, d, db, ts, args))
    && (forall d, db, ts, args {:trigger ExecCount(h.env, d, db, ts, args)} ::
          h.count(d, db, ts, args) == ExecCount(h.env, d, db, ts, args))
  }

  /** Moreover the codec undoes itself, and a scanned value binds to one that compares as the column's
      value. */
  ghost predicate Faithful(h: Host) {
    Executes(h) && Lawful(h.codec) && forall c, v :: ValuePos(h.env, SqlOf(h.scan(c, v))) == ValuePos(h.env, v)
  }

  lemma Executed(h: Host, d: Dialect, db: Db, ts: seq<Token>, args: seq<Value>)
    requires Executes(h)
    ensures h.select(d, db, ts, args) == ExecSelect(h.env, d, db, ts, args)
    ensures h.count(d, db, ts, args) == ExecCount(h.env, d, db, ts, args)
  {
    hide ExecSelect;
    hide ExecCount;
  }

  datatype Fetched = Fetched(rows: seq<Row>, cursors: seq<Cursor>, truncated: bool, total: Option<nat>)

  // ---------------------------------------------------------------- the parts of a fetch

  function MissingField(h: Host, order: seq<OrderTerm>): Option<string> {
    if order == [] then None
    else if order[0].col !in h.fields then Some(order[0].col)
    else MissingField(h, order[1..])
  }

  function Refusal(h: Host, s: Spec): Option<Failure>
    requires s.seek.Some?
  {
    if s.order == [] then Some(NoOrderBy)
    else if s.seek.value.size <= 0 then Some(BadSize)
    else if HasRelevance(s.order) then Some(RelevanceSeek)
    else if MissingField(h, s.order).Some? then Some(NoKeyField(MissingField(h, s.order).value))
    else None
  }

  /** What Seek asks of the query: an order by plain columns that the scan struct has, and a page size. */
  predicate Admissible(h: Host, s: Spec) {
    && s.seek.Some? && s.order != [] && s.seek.value.size > 0
    && forall i :: 0 <= i < |s.order| ==> s.order[i].rank.None? && s.order[i].col in h.fields
  }

  /** The first column that the scan struct lacks. */
  predicate FirstMissing(h: Host, order: seq<OrderTerm>, i: int) {
    0 <= i < |order| && order[i].col !in h.fields && forall j :: 0 <= j < i ==> order[j].col in h.fields
  }

  /** Nothing else is refused, and the error says what is missing: an order, a size, a cursor key in
      place of a relevance term, or the first column without a field, in that precedence. */
  lemma RefusalExact(h: Host, s: Spec)
    requires s.seek.Some?
    ensures Refusal(h, s).None? <==> Admissible(h, s)
    ensures Refusal(h, s) == Some(NoOrderBy) <==> s.order == []
    ensures Refusal(h, s) == Some(BadSize) <==> s.order != [] && s.seek.value.size <= 0
    ensures Refusal(h, s) == Some(RelevanceSeek) <==>
      s.order != [] && s.seek.value.size > 0 && exists i :: 0 <= i < |s.order| && s.order[i].rank.Some?
    ensures Refusal(h, s).Some? && Refusal(h, s).value.NoKeyField? ==>
      exists i :: FirstMissing(h, s.order, i) && Refusal(h, s) == Some(NoKeyField(s.order[i].col))
  {
    RelevanceAt(s.order);
    MissingAt(h, s.order);
  }

  lemma {:induction false} RelevanceAt(order: seq<OrderTerm>)
    ensures HasRelevance(order) <==> exists i :: 0 <= i < |order| && order[i].rank.Some?
  {
    if order != [] {
      RelevanceAt(order[1..]);
      assert forall i :: 0 < i < |order| ==> order[i] == order[1..][i - 1];
      assert forall i :: 0 <= i < |order[1..]| ==> order[1..][i] == order[i + 1];
    }
  }

  lemma {:induction false} MissingAt(h: Host, order: seq<OrderTerm>)
    ensures MissingField(h, order).None? <==> forall i :: 0 <= i < |order| ==> order[i].col in h.fields
    ensures MissingField(h, order).Some? ==>
      exists i :: FirstMissing(h, order, i) && order[i].col == MissingField(h, order).value
  {
    if order != [] {
      var rest := order[1..];
      assert forall i :: 0 < i < |order| ==> order[i] == rest[i - 1];
      if order[0].col !in h.fields {
        assert FirstMissing(h, order, 0);
      } else {
        MissingAt(h, rest);
        if MissingField(h, rest).Some? {
          var i :| FirstMissing(h, rest, i) && rest[i].col == MissingField(h, rest).value;
          assert order[i + 1] == rest[i];
          assert FirstMissing(h, order, i + 1);
        }
      }
    }
  }

  function SqlValues(vals: seq<Go>): (vs: seq<Value>)
    ensures |vs| == |vals|
    ensures forall i :: 0 <= i < |vals| ==> vs[i] == SqlOf(vals[i])
  {
    if vals == [] then [] else [SqlOf(vals[0])] + SqlValues(vals[1..])
  }

  /** The filter with the seek predicate of the cursor, if there is one. */
  function SeekFilter(h: Host, s: Spec): Result<Option<Cond>, Failure>
    requires s.seek.Some?
  {
    var base := EffectiveCond(s);
    if s.seek.value.cursor.NoCursor? then Ok(base)
    else
      match Decode(h.codec, s.seek.value.cursor)
      case Err(_) => Err(InvalidCursor)
      case Ok(vals) =>
        if |vals| != |s.order| then Err(CursorArity)
        else Ok(Some(And([base, Some(SeekCond(s.order, SqlValues(vals), s.seek.value.before))])))
  }

  function PageOrder(s: Spec): seq<OrderTerm>
    requires s.seek.Some?
  {
    if s.seek.value.before then Reversed(s.order) else s.order
  }

  /** The rows the statement returns, one more than a page when there are more. */
  function Raws(h: Host, s: Spec, c: Option<Cond>, db: Db): Option<seq<Row>>
    requires s.seek.Some?
  {
    var m, n := MarkerOf(s.dialect), |FilterArgs(c)|;
    match h.select(s.dialect, db, KeysetText(m, s, FilterText(m, 0, c), n, PageOrder(s)),
                   KeysetArgs(s, FilterArgs(c), PageOrder(s), s.seek.value.size + 1))
    case None => None
    case Some(answer) => Some(answer.rows)
  }

  function Total(h: Host, s: Spec, db: Db): Option<nat> {
    var m, c := MarkerOf(s.dialect), EffectiveCond(s);
    h.count(s.dialect, db, CountText(m, s, FilterText(m, 0, c), |FilterArgs(c)|), CountArgs(s, FilterArgs(c)))
  }

  /** Dropping the extra row, then restoring natural order. */
  function PageOf(raws: seq<Row>, size: nat, before: bool): seq<Row> {
    var kept := if |raws| > size then raws[..size] else raws;
    if before then Flipped(kept) else kept
  }

  function KeyOf(h: Host, order: seq<OrderTerm>, r: Row): (key: seq<Go>)
    ensures |key| == |order|
    ensures forall i :: 0 <= i < |order| ==> key[i] == h.scan(order[i].col, Col(r, order[i].col))
  {
    if order == [] then [] else [h.scan(order[0].col, Col(r, order[0].col))] + KeyOf(h, order[1..], r)
  }

  function KeysOf(h: Host, order: seq<OrderTerm>, rows: seq<Row>): (keys: seq<seq<Go>>)
    ensures |keys| == |rows|
    ensures forall i :: 0 <= i < |rows| ==> keys[i] == KeyOf(h, order, rows[i])
  {
    if rows == [] then [] else [KeyOf(h, order, rows[0])] + KeysOf(h, order, rows[1..])
  }

  function EncodeAll(codec: Codec, keys: seq<seq<Go>>): (cs: Option<seq<Cursor>>)
    ensures cs.Some? ==> |cs.value| == |keys|
    ensures cs.Some? ==> forall i :: 0 <= i < |keys| ==> Encode(codec, keys[i]) == Ok(cs.value[i])
    ensures cs.None? ==> exists i :: 0 <= i < |keys| && Encode(codec, keys[i]).Err?
  {
    if keys == [] then Some([])
    else if Encode(codec, keys[0]).Err? then None
    else
      match EncodeAll(codec, keys[1..])
      case None =>
        var i :| 0 <= i < |keys[1..]| && Encode(codec, keys[1..][i]).Err?;
        assert Encode(codec, keys[i + 1]).Err?;
        None
      case Some(cs) => Some([Encode(codec, keys[0]).value] + cs)
  }

  /** The page a fetch puts into `dest`, when the statement runs. */
  function Page(h: Host, s: Spec, db: Db): Result<(seq<Row>, bool), Failure>
    requires s.seek.Some?
  {
    match Refusal(h, s)
    case Some(f) => Err(f)
    case None =>
      match SeekFilter(h, s)
      case Err(f) => Err(f)
      case Ok(c) =>
        match Raws(h, s, c, db)
        case None => Err(QueryFailed)
        case Some(raws) =>
          var size := if s.seek.value.size > 0 then s.seek.value.size else 0;
          Ok((PageOf(raws, size, s.seek.value.before), |raws| > size))
  }

  /** A whole fetch: the page, a cursor per row, and the total if it was asked for. */
  function Fetch(h: Host, s: Spec, db: Db): Result<Fetched, Failure>
    requires s.seek.Some?
  {
    match Page(h, s, db)
    case Err(f) => Err(f)
    case Ok((rows, truncated)) =>
      match EncodeAll(h.codec, KeysOf(h, s.order, rows))
      case None => Err(KeyNotEncodable)
      case Some(cursors) =>
        if !s.seek.value.total then Ok(Fetched(rows, cursors, truncated, None))
        else
          match Total(h, s, db)
          case None => Err(QueryFailed)
          case Some(n) => Ok(Fetched(rows, cursors, truncated, Some(n)))
  }

  /** The cursor is a token of one value per term. */
  predicate Decodable(h: Host, s: Spec)
    requires s.seek.Some?
  {
    s.seek.value.cursor.NoCursor? ||
    (Decode(h.codec, s.seek.value.cursor).Ok? && |Decode(h.codec, s.seek.value.cursor).value| == |s.order|)
  }

  /** A fetch fails on what Seek does not admit, and on a cursor that does not decode to one value per
      term, with the first such error; on nothing else before the statement is sent. */
  lemma FetchRefuses(h: Host, s: Spec, db: Db)
    requires s.seek.Some?
    ensures s.order == [] ==> Fetch(h, s, db) == Err(NoOrderBy)
    ensures s.order != [] && s.seek.value.size <= 0 ==> Fetch(h, s, db) == Err(BadSize)
    ensures s.order != [] && s.seek.value.size > 0 ==> (
      if exists i :: 0 <= i < |s.order| && s.order[i].rank.Some? then Fetch(h, s, db) == Err(RelevanceSeek)
      else forall i :: FirstMissing(h, s.order, i) ==> Fetch(h, s, db) == Err(NoKeyField(s.order[i].col)))
    ensures Admissible(h, s) && !Decodable(h, s) ==>
      Fetch(h, s, db) == Err(if Decode(h.codec, s.seek.value.cursor).Ok? then CursorArity else InvalidCursor)
    ensures Admissible(h, s) && Decodable(h, s) && Fetch(h, s, db).Err? ==>
      Fetch(h, s, db).error == QueryFailed || Fetch(h, s, db).error == KeyNotEncodable
  {
    hide Raws;
    hide Total;
    hide EncodeAll;
    hide KeysOf;
    hide SeekCond;
    hide EffectiveCond;
    hide Decode;
    RefusalExact(h, s);
    RelevanceAt(s.order);
    hide Refusal;
    hide HasRelevance;
  }

  // ---------------------------------------------------------------- the method

  /** Reverses every term of an ORDER BY. */
  method ReverseTerms(order: seq<OrderTerm>) returns (out: seq<OrderTerm>)
    ensures out == Reversed(order)
  {
    out := [];
    for i := 0 to |order|
      invariant out + Reversed(order[i..]) == Reversed(order)
    {
      assert order[i..][1..] == order[i + 1..];
      out := out + [OrderTerm(order[i].col, !order[i].desc, FlipNulls(order[i].nulls), order[i].rank)];
    }
  }

  /** What `dest` gains from a fetch. */
  function PageRows(h: Host, s: Spec, db: Db): seq<Row>
    requires s.seek.Some?
  {
    match Page(h, s, db)
    case Err(_) => []
    case Ok((rows, _)) => rows
  }

  /** Fetches a page past the query's cursor into `dest`, behind what `dest` already holds. */
  method RunKeyset(h: Host, q: Query, db: Db, dest: Slice<Row>) returns (res: Result<Fetched, Failure>)
    requires dest.Valid() && q.seek.Some?
    modifies dest, dest.data
    ensures dest.Valid()
    ensures res == Fetch(h, old(q.State()), db)
    ensures dest.Contents() == old(dest.Contents()) + PageRows(h, old(q.State()), db)
  {
    hide Refusal;
    hide SeekFilter;
    hide Raws;
    hide Total;
    hide PageOf;
    hide KeysOf;
    ghost var s, was := q.State(), dest.Contents();
    assert was + [] == was;
    var refused := CheckSeek(h, q);
    RefusalExact(h, s);
    if refused.Some? {
      return Err(refused.value);
    }
    assert q.seek.value.size > 0;
    var size, before, withTotal := q.seek.value.size, q.seek.value.before, q.seek.value.total;
    var cond := BuildSeekFilter(h, q);
    if cond.Err? {
      return Err(cond.error);
    }
    var raws := SelectPage(h, q, cond.value, db);
    if raws.None? {
      return Err(QueryFailed);
    }
    assert Page(h, s, db) == Ok((PageOf(raws.value, size, before), |raws.value| > size));
    hide Page;
    var keys, truncated := Collect(h, q.order, raws.value, size, before, dest);
    var cursors := EncodeKeys(h, keys);
    if cursors.None? {
      return Err(KeyNotEncodable);
    }
    res := Ok(Fetched(PageOf(raws.value, size, before), cursors.value, truncated, None));
    if withTotal {
      var n := CountRows(h, q, db);
      if n.None? {
        return Err(QueryFailed);
      }
      res := Ok(res.value.(total := n));
    }
  }

  /** The filter, and behind it the seek predicate of the decoded cursor. */
  method BuildSeekFilter(h: Host, q: Query) returns (cond: Result<Option<Cond>, Failure>)
    requires q.seek.Some?
    ensures cond == SeekFilter(h, q.State())
  {
    hide SeekCond;
    hide EffectiveCond;
    hide And;
    var base := EffectiveCond(q.State());
    if q.seek.value.cursor.NoCursor? {
      return Ok(base);
    }
    var vals := DecodeCursor(h.codec, q.seek.value.cursor);
    if vals.Err? {
      return Err(InvalidCursor);
    }
    if |vals.value| != |q.order| {
      return Err(CursorArity);
    }
    var past := KeysetCond(q.order, SqlValues(vals.value), q.seek.value.before);
    cond := Ok(Some(And([base, Some(past)])));
  }

  /** Runs the page's SELECT, ordered backward for a backward page. */
  method SelectPage(h: Host, q: Query, cond: Option<Cond>, db: Db) returns (rows: Option<seq<Row>>)
    requires q.seek.Some?
    ensures rows == Raws(h, q.State(), cond, db)
  {
    hide KeysetText;
    hide KeysetArgs;
    hide CondText;
    hide CondArgs;
    var m := MarkerOf(q.dialect);
    var where, whereArgs := BuildAt(cond, m, 0);
    var order := q.order;
    if q.seek.value.before {
      order := ReverseTerms(q.order);
    }
    var text, args := q.BuildKeysetSelect(where, whereArgs, order, q.seek.value.size + 1);
    var answer := h.select(q.dialect, db, text, args);
    rows := if answer.None? then None else Some(answer.value.rows);
  }

  method CountRows(h: Host, q: Query, db: Db) returns (n: Option<nat>)
    ensures n == Total(h, q.State(), db)
  {
    hide CountText;
    hide CountArgs;
    hide CondText;
    hide CondArgs;
    hide EffectiveCond;
    var m := MarkerOf(q.dialect);
    var where, whereArgs := BuildAt(EffectiveCond(q.State()), m, 0);
    var text, args := q.BuildCount(where, whereArgs);
    n := h.count(q.dialect, db, text, args);
  }

  /** The checks before any SQL is built. */
  method CheckSeek(h: Host, q: Query) returns (f: Option<Failure>)
    requires q.seek.Some?
    ensures f == Refusal(h, q.State())
  {
    if |q.order| == 0 {
      return Some(NoOrderBy);
    }
    if q.seek.value.size <= 0 {
      return Some(BadSize);
    }
    for i := 0 to |q.order|
      invariant forall j :: 0 <= j < i ==> q.order[j].rank.None?
    {
      if q.order[i].rank.Some? {
        return Some(RelevanceSeek);
      }
    }
    for i := 0 to |q.order|
      invariant MissingField(h, q.order) == MissingField(h, q.order[i..])
    {
      assert q.order[i..][1..] == q.order[i + 1..];
      if q.order[i].col !in h.fields {
        return Some(NoKeyField(q.order[i].col));
      }
    }
    assert q.order[|q.order|..] == [];
    f := None;
  }

  /** Appends the rows and their keys, drops the extra row, and restores natural order. */
  method Collect(h: Host, order: seq<OrderTerm>, raws: seq<Row>, size: nat, before: bool, dest: Slice<Row>)
      returns (keys: Slice<seq<Go>>, truncated: bool)
    requires dest.Valid()
    modifies dest, dest.data
    ensures dest.Valid() && fresh(keys) && fresh(keys.data) && keys.Valid()
    ensures dest.Contents() == old(dest.Contents()) + PageOf(raws, size, before)
    ensures keys.Contents() == KeysOf(h, order, PageOf(raws, size, before))
    ensures truncated == (|raws| > size)
  {
    hide KeysOf;
    var start := dest.len;
    ghost var was := dest.Contents();
    keys := ScanRows(h, order, raws, dest);
    truncated := keys.len > size;
    ghost var kept := if |raws| > size then raws[..size] else raws;
    if truncated {
      KeysTake(h, order, raws, size);
      TakeBehind(was, raws, size);
      dest.Truncate(start + size);
      keys.Truncate(size);
    }
    if before {
      RestoreOrder(h, order, dest, start, was, kept, keys);
    }
  }

  lemma TakeBehind<T>(was: seq<T>, more: seq<T>, n: nat)
    requires n <= |more|
    ensures (was + more)[..|was| + n] == was + more[..n]
  {
  }

  lemma BehindSplits<T>(was: seq<T>, more: seq<T>)
    ensures (was + more)[..|was|] == was && (was + more)[|was|..] == more
  {
  }

  lemma NothingBefore<T>(s: seq<T>)
    ensures [] + s == s
  {
  }

  /** Flips the page and its keys in place. */
  method RestoreOrder(h: Host, order: seq<OrderTerm>, dest: Slice<Row>, start: nat, ghost was: seq<Row>,
      ghost kept: seq<Row>, keys: Slice<seq<Go>>)
    requires dest.Valid() && keys.Valid()
    requires dest.Contents() == was + kept && |was| == start && keys.Contents() == KeysOf(h, order, kept)
    modifies dest.data, keys.data
    ensures dest.Valid() && keys.Valid()
    ensures dest.Contents() == was + Flipped(kept) && keys.Contents() == KeysOf(h, order, Flipped(kept))
  {
    hide KeysOf;
    hide Flipped;
    ghost var ks := keys.Contents();
    KeysFlip(h, order, kept);
    BehindSplits(was, kept);
    BehindSplits([], ks);
    NothingBefore(ks);
    dest.ReverseFrom(start);
    keys.ReverseFrom(0);
    NothingBefore(Flipped(ks));
  }

  /** One fresh row and one key per result row, appended in step. */
  method ScanRows(h: Host, order: seq<OrderTerm>, raws: seq<Row>, dest: Slice<Row>) returns (keys: Slice<seq<Go>>)
    requires dest.Valid()
    modifies dest, dest.data
    ensures dest.Valid() && (dest.data == old(dest.data) || fresh(dest.data))
    ensures fresh(keys) && fresh(keys.data) && keys.Valid()
    ensures dest.Contents() == old(dest.Contents()) + raws
    ensures keys.Contents() == KeysOf(h, order, raws)
  {
    hide KeyOf;
    hide KeysOf;
    ghost var was := dest.Contents();
    keys := new Slice<seq<Go>>();
    assert raws[..0] == [];
    assert KeysOf(h, order, raws[..0]) == [];
    assert was + [] == was;
    for i := 0 to |raws|
      invariant dest.Valid() && keys.Valid() && fresh(keys) && fresh(keys.data)
      invariant dest.data == old(dest.data) || fresh(dest.data)
      invariant dest.Contents() == was + raws[..i]
      invariant keys.Contents() == KeysOf(h, order, raws[..i])
    {
      ghost var done := raws[..i];
      assert raws[..i + 1] == done + [raws[i]];
      Assoc(was, done, [raws[i]]);
      KeysAppend(h, order, done, raws[i]);
      dest.Append(raws[i]);
      keys.Append(KeyOf(h, order, raws[i]));
    }
    assert raws[..|raws|] == raws;
  }

  method EncodeKeys(h: Host, keys: Slice<seq<Go>>) returns (cursors: Option<seq<Cursor>>)
    requires keys.Valid()
    ensures cursors == EncodeAll(h.codec, keys.Contents())
  {
    var out: seq<Cursor> := [];
    var ks := keys.Contents();
    for i := 0 to |ks|
      invariant |out| == i
      invariant forall j :: 0 <= j < i ==> Encode(h.codec, ks[j]) == Ok(out[j])
    {
      var c := EncodeCursor(h.codec, ks[i]);
      if c.Err? {
        return None;
      }
      out := out + [c.value];
    }
    assert EncodeAll(h.codec, ks).Some?;
    assert out == EncodeAll(h.codec, ks).value;
    cursors := Some(out);
  }

  lemma KeysAppend(h: Host, order: seq<OrderTerm>, rows: seq<Row>, r: Row)
    ensures KeysOf(h, order, rows + [r]) == KeysOf(h, order, rows) + [KeyOf(h, order, r)]
  {
  }

  lemma KeysTake(h: Host, order: seq<OrderTerm>, rows: seq<Row>, n: nat)
    requires n <= |rows|
    ensures KeysOf(h, order, rows)[..n] == KeysOf(h, order, rows[..n])
  {
  }

  lemma KeysFlip(h: Host, order: seq<OrderTerm>, rows: seq<Row>)
    ensures Flipped(KeysOf(h, order, rows)) == KeysOf(h, order, Flipped(rows))
  {
  }
}
