/**
  ORDER BY: what a list of order terms means (null ordering follows section 10.10 of
  ISO/IEC 9075-2:2003), how it is written per dialect, and that MySQL's ISNULL emulation
  orders the rows as the native null placement does.
 */
module Orders {
  import opened Dialects
  import opened Engines
  import opened Logic
  import opened Sql
  import opened Wrappers

  datatype Nulls = NullsDefault | NullsFirst | NullsLast

  function FlipNulls(p: Nulls): Nulls {
    match p
    case NullsFirst => NullsLast
    case NullsLast => NullsFirst
    case NullsDefault => NullsDefault
  }

  datatype Rank = Rank(query: string, config: string)

  datatype OrderTerm = OrderTerm(col: string, desc: bool, nulls: Nulls, rank: Option<Rank>)

  /** The terms of a backward page: every direction and null placement reversed. */
  function Reversed(order: seq<OrderTerm>): (rev: seq<OrderTerm>)
    ensures |rev| == |order|
  {
    if order == [] then []
    else [OrderTerm(order[0].col, !order[0].desc, FlipNulls(order[0].nulls), order[0].rank)] + Reversed(order[1..])
  }

  // ---------------------------------------------------------------- comparing positions

  /** Where a value stands on one sort axis: NULL, or its sort key. */
  type Pos = Option<real>

  datatype Dir = Dir(desc: bool, nulls: Nulls)

  predicate NullsAhead(d: Dialect, x: Dir) {
    match x.nulls
    case NullsFirst => true
    case NullsLast => false
    case NullsDefault => x.desc == NullsHighest(d)
  }

  /** `a` sorts strictly before `b`. */
  predicate Ahead(d: Dialect, x: Dir, a: Pos, b: Pos) {
    if a.None? || b.None? then a != b && a.None? == NullsAhead(d, x)
    else if x.desc then b.value < a.value
    else a.value < b.value
  }

  /** The lexicographic order. */
  predicate Before(d: Dialect, dirs: seq<Dir>, a: seq<Pos>, b: seq<Pos>)
    requires |a| == |b| == |dirs|
  {
    dirs != [] &&
    (Ahead(d, dirs[0], a[0], b[0]) || (a[0] == b[0] && Before(d, dirs[1..], a[1..], b[1..])))
  }

  lemma {:induction false} BeforeTransitive(d: Dialect, dirs: seq<Dir>, a: seq<Pos>, b: seq<Pos>, c: seq<Pos>)
    requires |a| == |b| == |c| == |dirs|
    requires Before(d, dirs, a, b) && Before(d, dirs, b, c)
    ensures Before(d, dirs, a, c)
  {
    if a[0] == b[0] == c[0] {
      if Before(d, dirs[1..], a[1..], b[1..]) && Before(d, dirs[1..], b[1..], c[1..]) {
        BeforeTransitive(d, dirs[1..], a[1..], b[1..], c[1..]);
      }
    }
  }

  /** Exactly one of: before, equal, after. */
  lemma {:induction false} BeforeTrichotomy(d: Dialect, dirs: seq<Dir>, a: seq<Pos>, b: seq<Pos>)
    requires |a| == |b| == |dirs|
    ensures Before(d, dirs, a, b) || Before(d, dirs, b, a) || a == b
    ensures !(Before(d, dirs, a, b) && Before(d, dirs, b, a))
    ensures a == b ==> !Before(d, dirs, a, b)
  {
    if dirs != [] {
      BeforeTrichotomy(d, dirs[1..], a[1..], b[1..]);
      assert a == [a[0]] + a[1..] && b == [b[0]] + b[1..];
    }
  }

  /** Before means: equal up to some position and ahead there. */
  lemma {:induction false} BeforeAtPosition(d: Dialect, dirs: seq<Dir>, a: seq<Pos>, b: seq<Pos>)
    requires |a| == |b| == |dirs|
    ensures Before(d, dirs, a, b) <==> exists i :: 0 <= i < |dirs| && a[..i] == b[..i] && Ahead(d, dirs[i], a[i], b[i])
  {
    if dirs != [] {
      BeforeAtPosition(d, dirs[1..], a[1..], b[1..]);
      if Ahead(d, dirs[0], a[0], b[0]) {
        assert a[..0] == b[..0];
      } else if Before(d, dirs, a, b) {
        var i :| 0 <= i < |dirs[1..]| && a[1..][..i] == b[1..][..i] && Ahead(d, dirs[1..][i], a[1..][i], b[1..][i]);
        assert a[..i + 1] == [a[0]] + a[1..][..i] && b[..i + 1] == [b[0]] + b[1..][..i];
      } else {
        forall i | 0 <= i < |dirs| && a[..i] == b[..i]
          ensures !Ahead(d, dirs[i], a[i], b[i])
        {
          if i > 0 {
            assert a[..i][0] == b[..i][0];
            assert a[1..][..i - 1] == a[..i][1..] && b[1..][..i - 1] == b[..i][1..];
          }
        }
      }
    }
  }

  lemma {:induction false} BeforeConcat(d: Dialect, x: seq<Dir>, y: seq<Dir>, a: seq<Pos>, b: seq<Pos>, a': seq<Pos>,
      b': seq<Pos>)
    requires |a| == |a'| == |x| && |b| == |b'| == |y|
    ensures Before(d, x + y, a + b, a' + b') <==> Before(d, x, a, a') || (a == a' && Before(d, y, b, b'))
  {
    if x == [] {
      assert x + y == y && a + b == b && a' + b' == b';
    } else {
      assert (x + y)[1..] == x[1..] + y && (a + b)[1..] == a[1..] + b && (a' + b')[1..] == a'[1..] + b';
      BeforeConcat(d, x[1..], y, a[1..], b, a'[1..], b');
      assert a == [a[0]] + a[1..] && a' == [a'[0]] + a'[1..];
    }
  }

  lemma BeforeOne(d: Dialect, x: Dir, a: Pos, b: Pos)
    ensures Before(d, [x], [a], [b]) <==> Ahead(d, x, a, b)
  {
  }

  // ---------------------------------------------------------------- comparing rows

  function TermDir(t: OrderTerm): Dir {
    Dir(t.desc, t.nulls)
  }

  function Dirs(order: seq<OrderTerm>): (dirs: seq<Dir>)
    ensures |dirs| == |order|
    ensures forall i :: 0 <= i < |order| ==> dirs[i] == TermDir(order[i])
  {
    if order == [] then [] else [TermDir(order[0])] + Dirs(order[1..])
  }

  function ValuePos(e: Env, v: Value): Pos {
    if v.Null? then None else Some(e.key(v))
  }

  /** A relevance term sorts by the score of the column against its query. */
  function TermPos(e: Env, t: OrderTerm, r: Row): Pos {
    if t.rank.None? then ValuePos(e, Col(r, t.col))
    else if Col(r, t.col).Null? then None
    else Some(e.score(t.rank.value.config, Col(r, t.col), Str(t.rank.value.query)))
  }

  function RowPos(e: Env, order: seq<OrderTerm>, r: Row): (ps: seq<Pos>)
    ensures |ps| == |order|
    ensures forall i :: 0 <= i < |order| ==> ps[i] == TermPos(e, order[i], r)
  {
    if order == [] then [] else [TermPos(e, order[0], r)] + RowPos(e, order[1..], r)
  }

  /** Row `r` sorts strictly before row `s`. */
  predicate RowBefore(e: Env, d: Dialect, order: seq<OrderTerm>, r: Row, s: Row) {
    Before(d, Dirs(order), RowPos(e, order, r), RowPos(e, order, s))
  }

  /** Reversing every term reverses the order exactly, nulls included, on every dialect. */
  lemma {:induction false} ReversedIsConverse(d: Dialect, order: seq<OrderTerm>, a: seq<Pos>, b: seq<Pos>)
    requires |a| == |b| == |order|
    ensures Before(d, Dirs(Reversed(order)), a, b) <==> Before(d, Dirs(order), b, a)
  {
    if order != [] {
      assert Dirs(Reversed(order))[1..] == Dirs(Reversed(order[1..]));
      assert Dirs(order)[1..] == Dirs(order[1..]);
      ReversedIsConverse(d, order[1..], a[1..], b[1..]);
    }
  }

  lemma {:induction false} ReversedPositions(e: Env, order: seq<OrderTerm>, r: Row)
    ensures RowPos(e, Reversed(order), r) == RowPos(e, order, r)
  {
    if order != [] {
      ReversedPositions(e, order[1..], r);
    }
  }

  // ---------------------------------------------------------------- ORDER BY text

  /** One ORDER BY term without relevance: column, direction, and its null placement, natively or
      through a leading ISNULL key. */
  function OrderClause(d: Dialect, col: string, desc: bool, nulls: Nulls): seq<Token> {
    var key := if desc then [Ident(col), DescWord] else [Ident(col)];
    if nulls == NullsDefault then key
    else if SupportsNullsOrdering(d) then
      key + [if nulls == NullsFirst then NullsFirstWords else NullsLastWords]
    else if nulls == NullsFirst then [IsNullCall(col), DescWord, Comma] + key
    else [IsNullCall(col), Comma] + key
  }

  function RankText(m: Marker, d: Dialect, k: nat, t: OrderTerm): seq<Token>
    requires t.rank.Some?
  {
    (if SupportsRelevance(d) then [RankOpen(t.col, t.rank.value.config), Place(m, k + 1), RankClose]
      else [Ident(t.col)]) +
    (if t.desc then [DescWord] else [])
  }

  function TermText(m: Marker, d: Dialect, k: nat, t: OrderTerm): seq<Token> {
    if t.rank.Some? then RankText(m, d, k, t) else OrderClause(d, t.col, t.desc, t.nulls)
  }

  function TermArgs(t: OrderTerm): seq<Value> {
    if t.rank.Some? then [Str(t.rank.value.query)] else []
  }

  function TermsText(m: Marker, d: Dialect, k: nat, order: seq<OrderTerm>): seq<Token>
    decreases order
  {
    if order == [] then []
    else if |order| == 1 then TermText(m, d, k, order[0])
    else TermText(m, d, k, order[0]) + [Comma] + TermsText(m, d, k + |TermArgs(order[0])|, order[1..])
  }

  function OrderText(m: Marker, d: Dialect, k: nat, order: seq<OrderTerm>): seq<Token> {
    if order == [] then [] else [OrderByWord] + TermsText(m, d, k, order)
  }

  function OrderArgs(order: seq<OrderTerm>): seq<Value> {
    if order == [] then [] else TermArgs(order[0]) + OrderArgs(order[1..])
  }

  predicate HasRelevance(order: seq<OrderTerm>) {
    exists i :: 0 <= i < |order| && order[i].rank.Some?
  }

  /** The placeholders of the clause are those of the relevance queries, in order. */
  lemma {:induction false} TermsRender(m: Marker, d: Dialect, k: nat, order: seq<OrderTerm>)
    requires SupportsRelevance(d) || !HasRelevance(order)
    ensures Renders(m, TermsText(m, d, k, order), TermsText(Numbered, d, k, order), k, |OrderArgs(order)|)
    decreases order
  {
    hide Renders;
    if order == [] {
      RendersPlain(m, [], k);
    } else {
      var n := |TermArgs(order[0])|;
      TermRenders(m, d, k, order[0]);
      if |order| > 1 {
        hide TermText;
        var t, tn := TermText(m, d, k, order[0]), TermText(Numbered, d, k, order[0]);
        assert forall i :: 0 <= i < |order[1..]| ==> order[1..][i] == order[i + 1];
        TermsRender(m, d, k + n, order[1..]);
        RendersPlain(m, [Comma], k + n);
        RendersConcat(m, t, tn, [Comma], [Comma], k, n, 0);
        RendersConcat(m, t + [Comma], tn + [Comma], TermsText(m, d, k + n, order[1..]),
          TermsText(Numbered, d, k + n, order[1..]),
          k, n, |OrderArgs(order[1..])|);
      } else {
        assert order[1..] == [];
      }
    }
  }

  lemma TermRenders(m: Marker, d: Dialect, k: nat, t: OrderTerm)
    requires SupportsRelevance(d) || t.rank.None?
    ensures Renders(m, TermText(m, d, k, t), TermText(Numbered, d, k, t), k, |TermArgs(t)|)
  {
    hide Renders;
    if t.rank.None? {
      RendersPlain(m, TermText(m, d, k, t), k);
    } else {
      var head := [RankOpen(t.col, t.rank.value.config)];
      var tail := if t.desc then [RankClose, DescWord] else [RankClose];
      RendersPlain(m, head, k);
      RendersPlace(m, k);
      RendersPlain(m, tail, k + 1);
      RendersConcat(m, head, head, [Place(m, k + 1)], [Slot(k + 1)], k, 0, 1);
      RendersConcat(m, head + [Place(m, k + 1)], head + [Slot(k + 1)], tail, tail, k, 1, 0);
      assert RankText(m, d, k, t) == head + [Place(m, k + 1)] + tail;
      assert RankText(Numbered, d, k, t) == head + [Slot(k + 1)] + tail;
    }
  }

  // ---------------------------------------------------------------- sort keys, as the database reads them

  datatype KeyExpr =
    | KeyColumn(col: string)
    | KeyIsNull(col: string)
    | KeyRank(col: string, config: string, slot: nat)

  datatype SortKey = SortKey(x: KeyExpr, dir: Dir)

  /** The keys a term's text lists. */
  function TermKeys(d: Dialect, k: nat, t: OrderTerm): seq<SortKey> {
    if t.rank.Some? then [SortKey(KeyRank(t.col, t.rank.value.config, k + 1), Dir(t.desc, NullsDefault))]
    else if t.nulls == NullsDefault || SupportsNullsOrdering(d) then [SortKey(KeyColumn(t.col), TermDir(t))]
    else [SortKey(KeyIsNull(t.col), Dir(t.nulls == NullsFirst, NullsDefault)),
      SortKey(KeyColumn(t.col), Dir(t.desc, NullsDefault))]
  }

  function OrderKeys(d: Dialect, k: nat, order: seq<OrderTerm>): seq<SortKey>
    decreases order
  {
    if order == [] then [] else TermKeys(d, k, order[0]) + OrderKeys(d, k + |TermArgs(order[0])|, order[1..])
  }

  function KeyPos(e: Env, args: seq<Value>, x: KeyExpr, r: Row): Pos {
    match x
    case KeyColumn(c) => ValuePos(e, Col(r, c))
    case KeyIsNull(c) => Some(if Col(r, c).Null? then 1.0 else 0.0)
    case KeyRank(c, config, slot) =>
      if Col(r, c).Null? then None
      else Some(e.score(config, Col(r, c), if 1 <= slot <= |args| then args[slot - 1] else Null))
  }

  function KeysPos(e: Env, args: seq<Value>, keys: seq<SortKey>, r: Row): (ps: seq<Pos>)
    ensures |ps| == |keys|
  {
    if keys == [] then [] else [KeyPos(e, args, keys[0].x, r)] + KeysPos(e, args, keys[1..], r)
  }

  function KeyDirs(keys: seq<SortKey>): (dirs: seq<Dir>)
    ensures |dirs| == |keys|
  {
    if keys == [] then [] else [keys[0].dir] + KeyDirs(keys[1..])
  }

  predicate KeysBefore(e: Env, d: Dialect, args: seq<Value>, keys: seq<SortKey>, r: Row, s: Row) {
    Before(d, KeyDirs(keys), KeysPos(e, args, keys, r), KeysPos(e, args, keys, s))
  }

  lemma {:induction false} KeysConcat(e: Env, args: seq<Value>, a: seq<SortKey>, b: seq<SortKey>, r: Row)
    ensures KeysPos(e, args, a + b, r) == KeysPos(e, args, a, r) + KeysPos(e, args, b, r)
    ensures KeyDirs(a + b) == KeyDirs(a) + KeyDirs(b)
  {
    if a == [] {
      assert a + b == b;
    } else {
      assert (a + b)[1..] == a[1..] + b;
      KeysConcat(e, args, a[1..], b, r);
    }
  }

  /** A relevance term never declares a null placement. */
  predicate PlainRanks(order: seq<OrderTerm>) {
    order == [] || ((order[0].rank.Some? ==> order[0].nulls == NullsDefault) && PlainRanks(order[1..]))
  }

  /** `args` holds the relevance queries of `order` from position k+1 on. */
  predicate QueriesAt(args: seq<Value>, k: nat, order: seq<OrderTerm>) {
    k + |OrderArgs(order)| <= |args| && args[k..k + |OrderArgs(order)|] == OrderArgs(order)
  }

  /** The keys written for any dialect, MySQL's emulation included, order all rows as the terms do:
      the same rows come first, and the same rows tie. */
  lemma {:induction false} KeysOrderAsTerms(e: Env, d: Dialect, args: seq<Value>, k: nat, order: seq<OrderTerm>,
      r: Row, s: Row)
    requires QueriesAt(args, k, order)
    requires PlainRanks(order)
    ensures KeysBefore(e, d, args, OrderKeys(d, k, order), r, s) <==> RowBefore(e, d, order, r, s)
    ensures KeysPos(e, args, OrderKeys(d, k, order), r) == KeysPos(e, args, OrderKeys(d, k, order), s) <==>
      RowPos(e, order, r) == RowPos(e, order, s)
    decreases order
  {
    if order != [] {
      hide KeysBefore;
      hide RowBefore;
      hide OrderKeys;
      hide KeysPos;
      hide RowPos;
      QueriesSplit(args, k, order);
      KeysOrderAsTerms(e, d, args, k + |TermArgs(order[0])|, order[1..], r, s);
      OrderStep(e, d, args, k, order, r, s);
    }
  }

  lemma OrderStep(e: Env, d: Dialect, args: seq<Value>, k: nat, order: seq<OrderTerm>, r: Row, s: Row)
    requires order != [] && (order[0].rank.Some? ==> order[0].nulls == NullsDefault)
    requires var n := |TermArgs(order[0])|; k + n <= |args| && args[k..k + n] == TermArgs(order[0])
    requires var rest := OrderKeys(d, k + |TermArgs(order[0])|, order[1..]);
      && (KeysBefore(e, d, args, rest, r, s) <==> RowBefore(e, d, order[1..], r, s))
      && (KeysPos(e, args, rest, r) == KeysPos(e, args, rest, s) <==>
        RowPos(e, order[1..], r) == RowPos(e, order[1..], s))
    ensures KeysBefore(e, d, args, OrderKeys(d, k, order), r, s) <==> RowBefore(e, d, order, r, s)
    ensures KeysPos(e, args, OrderKeys(d, k, order), r) == KeysPos(e, args, OrderKeys(d, k, order), s) <==>
      RowPos(e, order, r) == RowPos(e, order, s)
  {
    hide Before;
    hide KeysPos;
    hide KeyDirs;
    hide TermKeys;
    hide TermPos;
    hide RowPos;
    hide Dirs;
    var t, n := order[0], |TermArgs(order[0])|;
    var first, rest := TermKeys(d, k, t), OrderKeys(d, k + n, order[1..]);
    UnfoldTerms(e, order, r);
    UnfoldTerms(e, order, s);
    TermKeyOrders(e, d, args, k, t, r, s);
    KeysConcat(e, args, first, rest, r);
    KeysConcat(e, args, first, rest, s);
    CombineOrders(d, KeyDirs(first), KeyDirs(rest), KeysPos(e, args, first, r), KeysPos(e, args, rest, r),
      KeysPos(e, args, first, s), KeysPos(e, args, rest, s),
      TermDir(t), Dirs(order[1..]), TermPos(e, t, r), RowPos(e, order[1..], r), TermPos(e, t, s),
        RowPos(e, order[1..], s));
  }

  /** Two lexicographic orders that agree on a first part and on the rest agree. */
  lemma CombineOrders(d: Dialect, x: seq<Dir>, y: seq<Dir>, a: seq<Pos>, b: seq<Pos>, a': seq<Pos>, b': seq<Pos>,
                      z: Dir, w: seq<Dir>, p: Pos, q: seq<Pos>, p': Pos, q': seq<Pos>)
    requires |x| == |a| == |a'| && |y| == |b| == |b'| && |w| == |q| == |q'|
    requires (Before(d, x, a, a') <==> Ahead(d, z, p, p')) && (a == a' <==> p == p')
    requires (Before(d, y, b, b') <==> Before(d, w, q, q')) && (b == b' <==> q == q')
    ensures Before(d, x + y, a + b, a' + b') <==> Before(d, [z] + w, [p] + q, [p'] + q')
    ensures a + b == a' + b' <==> [p] + q == [p'] + q'
  {
    hide Before;
    BeforeConcat(d, x, y, a, b, a', b');
    ConcatEqual(a, b, a', b');
    BeforeOne(d, z, p, p');
    BeforeConcat(d, [z], w, [p], q, [p'], q');
    ConcatEqual([p], q, [p'], q');
    assert [p] == [p'] <==> p == p' by {
      assert [p][0] == p && [p'][0] == p';
    }
  }

  lemma UnfoldTerms(e: Env, order: seq<OrderTerm>, r: Row)
    requires order != []
    ensures RowPos(e, order, r) == [TermPos(e, order[0], r)] + RowPos(e, order[1..], r)
    ensures Dirs(order) == [TermDir(order[0])] + Dirs(order[1..])
  {
  }

  lemma QueriesSplit(args: seq<Value>, k: nat, order: seq<OrderTerm>)
    requires order != [] && QueriesAt(args, k, order)
    ensures var n := |TermArgs(order[0])|;
      && k + n <= |args| && args[k..k + n] == TermArgs(order[0])
      && QueriesAt(args, k + n, order[1..])
  {
    var n, own := |TermArgs(order[0])|, OrderArgs(order);
    assert args[k..k + n] == args[k..k + |own|][..n];
    assert args[k + n..k + n + |OrderArgs(order[1..])|] == args[k..k + |own|][n..];
  }

  lemma ConcatEqual<T>(a: seq<T>, b: seq<T>, a': seq<T>, b': seq<T>)
    requires |a| == |a'|
    ensures a + b == a' + b' <==> a == a' && b == b'
  {
    if a + b == a' + b' {
      assert a == (a + b)[..|a|] && a' == (a' + b')[..|a|];
      assert b == (a + b)[|a|..] && b' == (a' + b')[|a|..];
    }
  }

  lemma TermKeyOrders(e: Env, d: Dialect, args: seq<Value>, k: nat, t: OrderTerm, r: Row, s: Row)
    requires k + |TermArgs(t)| <= |args| && args[k..k + |TermArgs(t)|] == TermArgs(t)
    requires t.rank.Some? ==> t.nulls == NullsDefault
    ensures KeysBefore(e, d, args, TermKeys(d, k, t), r, s) <==>
      Ahead(d, TermDir(t), TermPos(e, t, r), TermPos(e, t, s))
    ensures KeysPos(e, args, TermKeys(d, k, t), r) == KeysPos(e, args, TermKeys(d, k, t), s) <==>
      TermPos(e, t, r) == TermPos(e, t, s)
  {
    hide KeysPos;
    hide KeyDirs;
    hide Before;
    var keys := TermKeys(d, k, t);
    if t.rank.Some? {
      assert args[k..k + 1][0] == args[k];
      OneKey(e, d, args, keys[0], r, s);
    } else if t.nulls == NullsDefault || SupportsNullsOrdering(d) {
      OneKey(e, d, args, keys[0], r, s);
    } else {
      TwoKeys(e, d, args, keys[0], keys[1], r, s);
    }
  }

  lemma OneKey(e: Env, d: Dialect, args: seq<Value>, key: SortKey, r: Row, s: Row)
    ensures KeysPos(e, args, [key], r) == [KeyPos(e, args, key.x, r)] && KeyDirs([key]) == [key.dir]
    ensures KeysBefore(e, d, args, [key], r, s) <==>
      Ahead(d, key.dir, KeyPos(e, args, key.x, r), KeyPos(e, args, key.x, s))
    ensures KeysPos(e, args, [key], r) == KeysPos(e, args, [key], s) <==>
      KeyPos(e, args, key.x, r) == KeyPos(e, args, key.x, s)
  {
    hide KeyPos;
    assert [key][1..] == [];
    var a, b := KeyPos(e, args, key.x, r), KeyPos(e, args, key.x, s);
    BeforeOne(d, key.dir, a, b);
    assert KeysPos(e, args, [key], r) == [a] + KeysPos(e, args, [], r);
    assert KeysPos(e, args, [key], s) == [b] + KeysPos(e, args, [], s);
    assert [a] == [b] <==> a == b by {
      assert [a][0] == a && [b][0] == b;
    }
  }

  lemma TwoKeys(e: Env, d: Dialect, args: seq<Value>, x: SortKey, y: SortKey, r: Row, s: Row)
    ensures KeysBefore(e, d, args, [x, y], r, s) <==>
      Ahead(d, x.dir, KeyPos(e, args, x.x, r), KeyPos(e, args, x.x, s)) ||
      (KeyPos(e, args, x.x, r) == KeyPos(e, args, x.x, s) &&
        Ahead(d, y.dir, KeyPos(e, args, y.x, r), KeyPos(e, args, y.x, s)))
    ensures KeysPos(e, args, [x, y], r) == KeysPos(e, args, [x, y], s) <==>
      KeyPos(e, args, x.x, r) == KeyPos(e, args, x.x, s) && KeyPos(e, args, y.x, r) == KeyPos(e, args, y.x, s)
  {
    hide KeysPos;
    hide KeyDirs;
    hide Before;
    hide KeyPos;
    OneKey(e, d, args, x, r, s);
    OneKey(e, d, args, y, r, s);
    assert [x, y] == [x] + [y];
    KeysConcat(e, args, [x], [y], r);
    KeysConcat(e, args, [x], [y], s);
    BeforeConcat(d, KeyDirs([x]), KeyDirs([y]), KeysPos(e, args, [x], r), KeysPos(e, args, [y], r),
      KeysPos(e, args, [x], s), KeysPos(e, args, [y], s));
    ConcatEqual(KeysPos(e, args, [x], r), KeysPos(e, args, [y], r), KeysPos(e, args, [x], s), KeysPos(e, args, [y], s));
  }

  // ---------------------------------------------------------------- reading ORDER BY back

  /** A sort expression that the database knows. */
  function ParseKeyExpr(d: Dialect, ts: seq<Token>): Option<(KeyExpr, seq<Token>)> {
    if ts == [] then None
    else if ts[0].Ident? then Some((KeyColumn(ts[0].name), ts[1..]))
    else if ts[0].IsNullCall? && TakesIsNull(d) then Some((KeyIsNull(ts[0].arg), ts[1..]))
    else if |ts| >= 3 && TakesRank(d) && ts[0].RankOpen? && ts[1].Slot? && ts[2].RankClose? then
      Some((KeyRank(ts[0].rankCol, ts[0].rankConfig, ts[1].k), ts[3..]))
    else None
  }

  function ParseKey(d: Dialect, ts: seq<Token>): (p: Option<(SortKey, seq<Token>)>)
    ensures p.Some? ==> |p.value.1| < |ts|
  {
    match ParseKeyExpr(d, ts)
    case None => None
    case Some((x, r0)) =>
      var desc := r0 != [] && r0[0].DescWord?;
      var r1 := if desc then r0[1..] else r0;
      if r1 != [] && r1[0].NullsFirstWords? && TakesNullsClause(d) then
        Some((SortKey(x, Dir(desc, NullsFirst)), r1[1..]))
      else if r1 != [] && r1[0].NullsLastWords? && TakesNullsClause(d) then
        Some((SortKey(x, Dir(desc, NullsLast)), r1[1..]))
      else Some((SortKey(x, Dir(desc, NullsDefault)), r1))
  }

  function ParseKeys(d: Dialect, ts: seq<Token>): (p: Option<(seq<SortKey>, seq<Token>)>)
    decreases |ts|
  {
    match ParseKey(d, ts)
    case None => None
    case Some((key, rest)) =>
      if rest == [] || !rest[0].Comma? then Some(([key], rest))
      else
        match ParseKeys(d, rest[1..])
        case None => None
        case Some((keys, rest')) => Some(([key] + keys, rest'))
  }

  predicate EndsKey(ts: seq<Token>) {
    ts == [] || (!ts[0].DescWord? && !ts[0].NullsFirstWords? && !ts[0].NullsLastWords?)
  }

  /** The clause reads back as exactly its sort keys. */
  lemma {:induction false} TermsReadBack(d: Dialect, k: nat, order: seq<OrderTerm>, rest: seq<Token>)
    requires order != [] && (SupportsRelevance(d) || !HasRelevance(order))
    requires EndsKey(rest) && (rest == [] || !rest[0].Comma?)
    ensures ParseKeys(d, TermsText(Numbered, d, k, order) + rest) == Some((OrderKeys(d, k, order), rest))
    decreases order
  {
    hide TermText;
    hide TermKeys;
    hide ParseKey;
    var next := k + |TermArgs(order[0])|;
    if |order| == 1 {
      TermReadsBack(d, k, order[0], rest);
      assert order[1..] == [];
      assert OrderKeys(d, k, order) == TermKeys(d, k, order[0]) + [];
      assert TermKeys(d, k, order[0]) + [] == TermKeys(d, k, order[0]);
    } else {
      var more := TermsText(Numbered, d, next, order[1..]);
      var tail := [Comma] + (more + rest);
      Assoc(TermText(Numbered, d, k, order[0]), [Comma], more);
      Assoc(TermText(Numbered, d, k, order[0]), [Comma] + more, rest);
      Assoc([Comma], more, rest);
      assert tail[1..] == more + rest;
      assert forall i :: 0 <= i < |order[1..]| ==> order[1..][i] == order[i + 1];
      TermsReadBack(d, next, order[1..], rest);
      TermReadsBack(d, k, order[0], tail);
    }
  }

  /** Keys before a comma are followed by the keys after it. */
  ghost function WithMore(d: Dialect, keys: seq<SortKey>, rest: seq<Token>): Option<(seq<SortKey>, seq<Token>)> {
    if rest == [] || !rest[0].Comma? then Some((keys, rest))
    else
      match ParseKeys(d, rest[1..])
      case None => None
      case Some((more, rest')) => Some((keys + more, rest'))
  }

  lemma TermReadsBack(d: Dialect, k: nat, t: OrderTerm, rest: seq<Token>)
    requires SupportsRelevance(d) || t.rank.None?
    requires EndsKey(rest)
    ensures ParseKeys(d, TermText(Numbered, d, k, t) + rest) == WithMore(d, TermKeys(d, k, t), rest)
  {
    hide ParseKeys;
    if t.rank.Some? {
      var x := KeyRank(t.col, t.rank.value.config, k + 1);
      KeyReadsBack(d, x, t.desc, NullsDefault, rest);
      assert TermText(Numbered, d, k, t) == KeyText(x, t.desc, NullsDefault);
    } else if t.nulls == NullsDefault || SupportsNullsOrdering(d) {
      KeyReadsBack(d, KeyColumn(t.col), t.desc, t.nulls, rest);
      assert TermText(Numbered, d, k, t) == KeyText(KeyColumn(t.col), t.desc, t.nulls);
    } else {
      EmulatedReadsBack(d, k, t, rest);
    }
  }

  lemma EmulatedReadsBack(d: Dialect, k: nat, t: OrderTerm, rest: seq<Token>)
    requires t.rank.None? && t.nulls != NullsDefault && !SupportsNullsOrdering(d)
    requires EndsKey(rest)
    ensures ParseKeys(d, TermText(Numbered, d, k, t) + rest) == WithMore(d, TermKeys(d, k, t), rest)
  {
    var ahead := t.nulls == NullsFirst;
    var first := KeyText(KeyIsNull(t.col), ahead, NullsDefault);
    var second := KeyText(KeyColumn(t.col), t.desc, NullsDefault);
    var isNull := SortKey(KeyIsNull(t.col), Dir(ahead, NullsDefault));
    var key := SortKey(KeyColumn(t.col), Dir(t.desc, NullsDefault));
    assert TermText(Numbered, d, k, t) == first + [Comma] + second;
    hide ParseKeys;
    hide KeyText;
    hide TermText;
    Assoc(first, [Comma], second);
    Assoc(first, [Comma] + second, rest);
    Assoc([Comma], second, rest);
    KeyReadsBack(d, KeyColumn(t.col), t.desc, NullsDefault, rest);
    KeyReadsBack(d, KeyIsNull(t.col), ahead, NullsDefault, [Comma] + (second + rest));
    assert ([Comma] + (second + rest))[1..] == second + rest;
    JoinMore(d, isNull, [key], rest);
    assert [isNull] + [key] == [isNull, key];
  }

  lemma JoinMore(d: Dialect, x: SortKey, keys: seq<SortKey>, rest: seq<Token>)
    ensures var p := WithMore(d, keys, rest);
      WithMore(d, [x] + keys, rest) == match p case None => None case Some((ks, rest')) => Some(([x] + ks, rest'))
  {
    hide ParseKeys;
    if rest != [] && rest[0].Comma? && ParseKeys(d, rest[1..]).Some? {
      Assoc([x], keys, ParseKeys(d, rest[1..]).value.0);
    }
  }

  ghost function ExprText(x: KeyExpr): seq<Token> {
    match x
    case KeyColumn(c) => [Ident(c)]
    case KeyIsNull(c) => [IsNullCall(c)]
    case KeyRank(c, config, slot) => [RankOpen(c, config), Slot(slot), RankClose]
  }

  ghost function Suffix(desc: bool, nulls: Nulls): seq<Token> {
    (if desc then [DescWord] else []) +
    (if nulls == NullsDefault then [] else [if nulls == NullsFirst then NullsFirstWords else NullsLastWords])
  }

  ghost function KeyText(x: KeyExpr, desc: bool, nulls: Nulls): seq<Token> {
    ExprText(x) + Suffix(desc, nulls)
  }

  /** The database knows the expression and the placement. */
  predicate Accepts(d: Dialect, x: KeyExpr, nulls: Nulls) {
    && (x.KeyIsNull? ==> TakesIsNull(d))
    && (x.KeyRank? ==> TakesRank(d))
    && (nulls != NullsDefault ==> TakesNullsClause(d))
  }

  lemma ExprReadsBack(d: Dialect, x: KeyExpr, more: seq<Token>)
    requires Accepts(d, x, NullsDefault)
    ensures ParseKeyExpr(d, ExprText(x) + more) == Some((x, more))
  {
    var text := ExprText(x);
    var ts := text + more;
    assert ts[0] == text[0] && ts[|text|..] == more;
    assert |text| == 3 ==> ts[1] == text[1] && ts[2] == text[2];
  }

  lemma KeyReadsBack(d: Dialect, x: KeyExpr, desc: bool, nulls: Nulls, rest: seq<Token>)
    requires EndsKey(rest) && Accepts(d, x, nulls)
    ensures ParseKey(d, KeyText(x, desc, nulls) + rest) == Some((SortKey(x, Dir(desc, nulls)), rest))
    ensures ParseKeys(d, KeyText(x, desc, nulls) + rest) == WithMore(d, [SortKey(x, Dir(desc, nulls))], rest)
  {
    hide ExprText;
    hide ParseKeyExpr;
    hide ParseKeys;
    var r0 := Suffix(desc, nulls) + rest;
    Assoc(ExprText(x), Suffix(desc, nulls), rest);
    ExprReadsBack(d, x, r0);
    var placement :=
      if nulls == NullsDefault then [] else [if nulls == NullsFirst then NullsFirstWords else NullsLastWords];
    var r1 := placement + rest;
    assert desc ==> r0 == [DescWord] + r1 && r0[0].DescWord? && r0[1..] == r1;
    assert !desc ==> r0 == r1;
    assert nulls == NullsDefault ==> r1 == rest;
    assert nulls != NullsDefault ==> r1[0] == placement[0] && r1[1..] == rest;
    hide Suffix;
    assert ParseKey(d, KeyText(x, desc, nulls) + rest) == Some((SortKey(x, Dir(desc, nulls)), rest));
    KeysFromKey(d, KeyText(x, desc, nulls) + rest);
  }

  lemma KeysFromKey(d: Dialect, ts: seq<Token>)
    ensures ParseKeys(d, ts) ==
      match ParseKey(d, ts) case None => None case Some((key, rest)) => WithMore(d, [key], rest)
  {
    hide ParseKey;
  }
}
