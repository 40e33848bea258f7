/**
  SQL text as tokens, and what a driver does with placeholders.

  Postgres numbers its placeholders (`$k`), MySQL and SQLite write a bare `?`; the driver binds
  the k-th `?` of the text to the k-th argument, which `Resolve` makes explicit.
 */
module Sql {
  import opened Logic

  datatype Marker = Numbered | Positional

  datatype Token =
    // placeholders
    | Slot(k: nat)
    | Mark
    // boolean expressions
    | Ident(name: string)
    | Oper(o: Op)
    | LParen | RParen | Comma
    | AndWord | OrWord | NotWord
    | Fragment(s: string)
    | ExistsWord | SelectOne | OnText(on: string)
    | MatchOpen(col: string, config: string) | MatchClose
    // statements
    | SelectWord | Projection(columns: seq<string>, alias: string) | WindowTotal
    | SelectCount | CountGroups | GroupsAlias
    | FromWord | Source(src: string)
    | WhereWord | GroupByWord | HavingWord
    | OrderByWord | DescWord | NullsFirstWords | NullsLastWords
    | IsNullCall(arg: string) | RankOpen(rankCol: string, rankConfig: string) | RankClose
    | LimitWord | AllRows(count: int) | OffsetWord
    | DeleteWord | UpdateWord | SetWord

  function Place(m: Marker, k: nat): Token {
    if m.Numbered? then Slot(k) else Mark
  }

  predicate IsPlace(t: Token) {
    t.Slot? || t.Mark?
  }

  /** The placeholders of a text, in text order. */
  function Places(ts: seq<Token>): seq<Token> {
    if ts == [] then []
    else if IsPlace(ts[0]) then [ts[0]] + Places(ts[1..])
    else Places(ts[1..])
  }

  /** What the placeholders must be when `k` arguments are bound before this text and `n` in it. */
  function Run(m: Marker, k: nat, n: nat): seq<Token>
    decreases n
  {
    if n == 0 then [] else [Place(m, k + 1)] + Run(m, k + 1, n - 1)
  }

  /** `ts` uses the placeholders k+1..k+n, each exactly once and in order. */
  predicate Uses(m: Marker, ts: seq<Token>, k: nat, n: nat) {
    Places(ts) == Run(m, k, n)
  }

  /** The text with its i-th `?` replaced by a reference to argument k+i. */
  function Resolve(ts: seq<Token>, k: nat): seq<Token> {
    if ts == [] then []
    else if ts[0].Mark? then [Slot(k + 1)] + Resolve(ts[1..], k + 1)
    else [ts[0]] + Resolve(ts[1..], k)
  }

  function Marks(ts: seq<Token>): nat {
    if ts == [] then 0
    else (if ts[0].Mark? then 1 else 0) + Marks(ts[1..])
  }

  /** Every placeholder number moved up by `j`. */
  function Shift(ts: seq<Token>, j: nat): seq<Token> {
    if ts == [] then []
    else [if ts[0].Slot? then Slot(ts[0].k + j) else ts[0]] + Shift(ts[1..], j)
  }

  lemma Assoc<T>(a: seq<T>, b: seq<T>, c: seq<T>)
    ensures (a + b) + c == a + (b + c)
  {
  }

  /** What is still to be written of a separated list: a separator unless it is the first item, then the
      rest of the list. */
  ghost function Pending(sep: Token, rest: seq<Token>, none: bool, first: bool): seq<Token> {
    if none then [] else (if first then [] else [sep]) + rest
  }

  /** Writing one item moves it from what is pending to what is written. */
  lemma PendingSteps(sep: Token, rest: seq<Token>, one: seq<Token>, more: seq<Token>, none: bool, first: bool,
      text: seq<Token>)
    requires rest == one + Pending(sep, more, none, false)
    ensures text + Pending(sep, rest, false, first) ==
      (if first then text else text + [sep]) + one + Pending(sep, more, none, false)
  {
    var tail := Pending(sep, more, none, false);
    if first {
      assert [] + rest == rest;
      Assoc(text, one, tail);
    } else {
      Assoc(text, [sep], rest);
      Assoc(text + [sep], one, tail);
    }
  }

  lemma PendingEnds(sep: Token, rest: seq<Token>, text: seq<Token>)
    ensures forall first :: text + Pending(sep, rest, true, first) == text
    ensures Pending(sep, rest, false, true) == rest
  {
  }

  lemma {:induction false} PlacesConcat(a: seq<Token>, b: seq<Token>)
    ensures Places(a + b) == Places(a) + Places(b)
  {
    if a == [] {
      assert a + b == b;
    } else {
      assert (a + b)[1..] == a[1..] + b;
      PlacesConcat(a[1..], b);
      Assoc([a[0]], Places(a[1..]), Places(b));
    }
  }

  lemma {:induction false} RunConcat(m: Marker, k: nat, n: nat, p: nat)
    ensures Run(m, k, n + p) == Run(m, k, n) + Run(m, k + n, p)
    decreases n
  {
    if n != 0 {
      RunConcat(m, k + 1, n - 1, p);
      Assoc([Place(m, k + 1)], Run(m, k + 1, n - 1), Run(m, k + n, p));
    }
  }

  lemma UsesConcat(m: Marker, a: seq<Token>, b: seq<Token>, k: nat, n: nat, p: nat)
    requires Uses(m, a, k, n) && Uses(m, b, k + n, p)
    ensures Uses(m, a + b, k, n + p)
  {
    hide Places;
    hide Run;
    PlacesConcat(a, b);
    RunConcat(m, k, n, p);
  }

  lemma {:induction false} RunAt(m: Marker, k: nat, n: nat)
    ensures |Run(m, k, n)| == n
    ensures forall i :: 0 <= i < n ==> Run(m, k, n)[i] == Place(m, k + 1 + i)
    decreases n
  {
    if n != 0 {
      RunAt(m, k + 1, n - 1);
    }
  }

  lemma {:induction false} MarksConcat(a: seq<Token>, b: seq<Token>)
    ensures Marks(a + b) == Marks(a) + Marks(b)
  {
    if a == [] {
      assert a + b == b;
    } else {
      assert (a + b)[1..] == a[1..] + b;
      MarksConcat(a[1..], b);
    }
  }

  lemma {:induction false} ResolveConcat(a: seq<Token>, b: seq<Token>, k: nat)
    ensures Resolve(a + b, k) == Resolve(a, k) + Resolve(b, k + Marks(a))
    decreases a
  {
    if a == [] {
      assert a + b == b;
    } else {
      assert (a + b)[1..] == a[1..] + b;
      if a[0].Mark? {
        ResolveConcat(a[1..], b, k + 1);
        assert k + 1 + Marks(a[1..]) == k + Marks(a);
        Assoc([Slot(k + 1)], Resolve(a[1..], k + 1), Resolve(b, k + Marks(a)));
      } else {
        ResolveConcat(a[1..], b, k);
        Assoc([a[0]], Resolve(a[1..], k), Resolve(b, k + Marks(a)));
      }
    }
  }

  lemma {:induction false} ShiftConcat(a: seq<Token>, b: seq<Token>, j: nat)
    ensures Shift(a + b, j) == Shift(a, j) + Shift(b, j)
  {
    if a == [] {
      assert a + b == b;
    } else {
      assert (a + b)[1..] == a[1..] + b;
      ShiftConcat(a[1..], b, j);
    }
  }

  /** The three readings of one piece of text that was written with `k` arguments bound before it:
      its placeholders, its resolved form and its shifted form. */
  ghost predicate Renders(m: Marker, ts: seq<Token>, numbered: seq<Token>, k: nat, n: nat) {
    && Uses(m, ts, k, n)
    && (m.Numbered? ==> ts == numbered)
    && (m.Positional? ==> Resolve(ts, k) == numbered && Marks(ts) == n)
  }

  lemma RendersConcat(m: Marker, a: seq<Token>, na: seq<Token>, b: seq<Token>, nb: seq<Token>, k: nat, n: nat, p: nat)
    requires Renders(m, a, na, k, n) && Renders(m, b, nb, k + n, p)
    ensures Renders(m, a + b, na + nb, k, n + p)
  {
    hide Uses;
    hide Resolve;
    hide Marks;
    UsesConcat(m, a, b, k, n, p);
    ResolveConcat(a, b, k);
    MarksConcat(a, b);
  }

  /** Text without placeholders. */
  lemma {:induction false} RendersPlain(m: Marker, ts: seq<Token>, k: nat)
    requires forall i :: 0 <= i < |ts| ==> !IsPlace(ts[i])
    ensures Renders(m, ts, ts, k, 0)
  {
    if ts != [] {
      RendersPlain(m, ts[1..], k);
    }
  }

  lemma RendersPlace(m: Marker, k: nat)
    ensures Renders(m, [Place(m, k + 1)], [Slot(k + 1)], k, 1)
  {
    var ts := [Place(m, k + 1)];
    assert ts[1..] == [];
    assert Run(m, k, 1) == [Place(m, k + 1)] + Run(m, k + 1, 0);
    assert Places(ts) == [ts[0]] + Places(ts[1..]);
    if m.Positional? {
      assert Resolve(ts, k) == [Slot(k + 1)] + Resolve(ts[1..], k + 1);
    }
  }

  lemma {:induction false} ResolveShift(ts: seq<Token>, k: nat, j: nat)
    requires forall t :: t in ts ==> !t.Slot?
    ensures Resolve(ts, k + j) == Shift(Resolve(ts, k), j)
    decreases ts
  {
    if ts != [] {
      if ts[0].Mark? {
        ResolveShift(ts[1..], k + 1, j);
        ShiftConcat([Slot(k + 1)], Resolve(ts[1..], k + 1), j);
      } else {
        assert ts[0] in ts;
        ResolveShift(ts[1..], k, j);
        ShiftConcat([ts[0]], Resolve(ts[1..], k), j);
      }
    }
  }

  /** Positional text holds no numbered placeholder. */
  lemma {:induction false} NoSlots(ts: seq<Token>, k: nat, n: nat)
    requires Uses(Positional, ts, k, n)
    ensures forall t :: t in ts ==> !t.Slot?
    decreases ts
  {
    if ts != [] {
      if IsPlace(ts[0]) {
        assert Places(ts)[0] == ts[0] && Places(ts)[1..] == Places(ts[1..]);
        assert n > 0 && Run(Positional, k, n)[1..] == Run(Positional, k + 1, n - 1);
        NoSlots(ts[1..], k + 1, n - 1);
      } else {
        NoSlots(ts[1..], k, n);
      }
      assert ts == [ts[0]] + ts[1..];
    }
  }

  /** What a driver hands to the database. */
  function Driver(m: Marker, ts: seq<Token>): seq<Token> {
    if m.Numbered? then ts else Resolve(ts, 0)
  }

  /** Written out: numbered text holds $1..$n in text order, each exactly once; positional text holds n
      bare markers, and the driver's reading of it is the numbered text. */
  lemma RendersMeans(m: Marker, ts: seq<Token>, numbered: seq<Token>, n: nat)
    requires Renders(m, ts, numbered, 0, n)
    ensures |Places(ts)| == n
    ensures forall i :: 0 <= i < n ==> Places(ts)[i] == if m.Numbered? then Slot(i + 1) else Mark
    ensures Driver(m, ts) == numbered
  {
    hide Places;
    RunAt(m, 0, n);
  }
}
