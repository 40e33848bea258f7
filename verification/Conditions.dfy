/**
  Condition trees: what they mean on a row, and the text and arguments the builder
  produces from them.
 */
module Conditions {
  import opened Logic
  import opened Sql
  import opened Wrappers
  import Text

  /** A node of a boolean expression. A nil condition is `None` of `Option<Cond>`. */
  datatype Cond =
    | Leaf(col: string, op: Op, val: Value)
    | Group(or: bool, conds: seq<Cond>)
    | Raw(sql: string, args: seq<Value>)
    | Exists(negate: bool, src: string, on: string, inner: Option<Cond>)
    | FullText(ftCol: string, config: string, query: string)

  // ---------------------------------------------------------------- constructors

  function Eq(col: string, v: Value): Cond { Leaf(col, OpEq, v) }

  function Gt(col: string, v: Value): Cond { Leaf(col, OpGt, v) }

  function Lt(col: string, v: Value): Cond { Leaf(col, OpLt, v) }

  function IsNull(col: string): Cond { Leaf(col, OpNull, Null) }

  function IsNotNull(col: string): Cond { Leaf(col, OpNNull, Null) }

  function And(conds: seq<Option<Cond>>): Cond { Group(false, Present(conds)) }

  function Or(conds: seq<Option<Cond>>): Cond { Group(true, Present(conds)) }

  /** The conditions that are not nil, in order. */
  function Present(conds: seq<Option<Cond>>): seq<Cond> {
    if conds == [] then []
    else (if conds[0].Some? then [conds[0].value] else []) + Present(conds[1..])
  }

  predicate Rising(at: seq<nat>) {
    forall i, j :: 0 <= i < j < |at| ==> at[i] < at[j]
  }

  /** `out[i]` is the condition at position `at[i]`. */
  predicate ReadsAt(conds: seq<Option<Cond>>, at: seq<nat>, out: seq<Cond>) {
    |at| == |out| && forall i :: 0 <= i < |at| ==> at[i] < |conds| && conds[at[i]] == Some(out[i])
  }

  /** No condition that is not nil is missing. */
  predicate ListsAll(conds: seq<Option<Cond>>, at: seq<nat>) {
    forall k {:trigger k in at} :: 0 <= k < |conds| && conds[k].Some? ==> k in at
  }

  /** `out` holds the conditions that are not nil, each once, in order. */
  ghost predicate KeepsNonNil(conds: seq<Option<Cond>>, out: seq<Cond>) {
    exists at :: Rising(at) && ReadsAt(conds, at, out) && ListsAll(conds, at)
  }

  lemma {:induction false} PresentKeeps(conds: seq<Option<Cond>>)
    ensures KeepsNonNil(conds, Present(conds))
  {
    hide Rising;
    hide ReadsAt;
    hide ListsAll;
    if conds == [] {
      NothingKept();
    } else {
      PresentKeeps(conds[1..]);
      var later :| Rising(later) && ReadsAt(conds[1..], later, Present(conds[1..])) && ListsAll(conds[1..], later);
      MovedRises(conds[0].Some?, later);
      MovedReads(conds, later, Present(conds[1..]));
      MovedLists(conds, later);
    }
  }

  lemma NothingKept()
    ensures Rising([]) && ReadsAt([], [], []) && ListsAll([], [])
  {
  }

  /** Positions in the rest, moved up by one, with the head's own in front. */
  function Moved(head: bool, later: seq<nat>): (at: seq<nat>)
    ensures |at| == |later| + if head then 1 else 0
    ensures head ==> at[0] == 0
    ensures forall i :: 0 <= i < |later| ==> at[if head then i + 1 else i] == later[i] + 1
  {
    (if head then [0] else []) + seq(|later|, i requires 0 <= i < |later| => later[i] + 1)
  }

  lemma MovedRises(head: bool, later: seq<nat>)
    requires Rising(later)
    ensures Rising(Moved(head, later))
  {
    hide Moved;
    var at, d := Moved(head, later), if head then 1 else 0;
    forall i, j | 0 <= i < j < |at|
      ensures at[i] < at[j]
    {
      assert at[j] == later[j - d] + 1;
      assert i >= d ==> at[i] == later[i - d] + 1;
    }
  }

  lemma MovedReads(conds: seq<Option<Cond>>, later: seq<nat>, rest: seq<Cond>)
    requires conds != [] && ReadsAt(conds[1..], later, rest)
    ensures ReadsAt(conds, Moved(conds[0].Some?, later), (if conds[0].Some? then [conds[0].value] else []) + rest)
  {
    hide Moved;
    hide ReadsAt;
    var at, out := Moved(conds[0].Some?, later), (if conds[0].Some? then [conds[0].value] else []) + rest;
    ReadsMoved(conds, later, rest, 0);
    forall i | 0 <= i < |at|
      ensures at[i] < |conds| && conds[at[i]] == Some(out[i])
    {
      ReadsMoved(conds, later, rest, if conds[0].Some? then i - 1 else i);
    }
    AllRead(conds, at, out);
  }

  lemma AllRead(conds: seq<Option<Cond>>, at: seq<nat>, out: seq<Cond>)
    requires |at| == |out| && forall i :: 0 <= i < |at| ==> at[i] < |conds| && conds[at[i]] == Some(out[i])
    ensures ReadsAt(conds, at, out)
  {
  }

  lemma ReadsMoved(conds: seq<Option<Cond>>, later: seq<nat>, rest: seq<Cond>, j: int)
    requires conds != [] && ReadsAt(conds[1..], later, rest)
    ensures |later| == |rest|
    ensures 0 <= j < |later| ==> later[j] + 1 < |conds| && conds[later[j] + 1] == Some(rest[j])
  {
    if 0 <= j < |later| {
      var tail := conds[1..];
      assert tail[later[j]] == Some(rest[j]);
    }
  }

  lemma MovedLists(conds: seq<Option<Cond>>, later: seq<nat>)
    requires conds != [] && ListsAll(conds[1..], later)
    ensures ListsAll(conds, Moved(conds[0].Some?, later))
  {
    hide Moved;
    var at, d := Moved(conds[0].Some?, later), if conds[0].Some? then 1 else 0;
    forall k | 0 <= k < |conds| && conds[k].Some?
      ensures k in at
    {
      if k > 0 {
        assert conds[1..][k - 1] == conds[k];
        assert k - 1 in later;
        var i :| 0 <= i < |later| && later[i] == k - 1;
        assert at[i + d] == k;
      }
    }
  }

  /** A conjunction of conditions, nil ones left out, is true exactly when all of them are, ... */
  lemma AndMeans(e: Env, conds: seq<Option<Cond>>, r: Row)
    ensures Eval(e, And(conds), r) == True <==>
      forall i :: 0 <= i < |conds| && conds[i].Some? ==> Eval(e, conds[i].value, r) == True
  {
    hide Eval;
    hide Present;
    PresentKeeps(conds);
    GroupEval(e, false, Present(conds), r);
    AllOfTrue(e, Present(conds), r);
    var out := Present(conds);
    var at :| Rising(at) && ReadsAt(conds, at, out) && ListsAll(conds, at);
    if AllOf(e, out, r) == True {
      forall k | 0 <= k < |conds| && conds[k].Some?
        ensures Eval(e, conds[k].value, r) == True
      {
        assert k in at;
        var i :| 0 <= i < |at| && at[i] == k;
        assert Some(out[i]) == conds[k];
      }
    }
  }

  /** ... and a disjunction exactly when some one of them is. */
  lemma OrMeans(e: Env, conds: seq<Option<Cond>>, r: Row)
    ensures Eval(e, Or(conds), r) == True <==>
      exists i :: 0 <= i < |conds| && conds[i].Some? && Eval(e, conds[i].value, r) == True
  {
    hide Eval;
    hide Present;
    PresentKeeps(conds);
    GroupEval(e, true, Present(conds), r);
    AnyOfTrue(e, Present(conds), r);
    var out := Present(conds);
    var at :| Rising(at) && ReadsAt(conds, at, out) && ListsAll(conds, at);
    if k :| 0 <= k < |conds| && conds[k].Some? && Eval(e, conds[k].value, r) == True {
      assert k in at;
      var i :| 0 <= i < |at| && at[i] == k;
      assert Some(out[i]) == conds[k];
    }
    if i :| 0 <= i < |out| && Eval(e, out[i], r) == True {
      assert Some(out[i]) == conds[at[i]];
    }
  }

  lemma GroupEval(e: Env, or: bool, cs: seq<Cond>, r: Row)
    ensures Eval(e, Group(or, cs), r) == if or then AnyOf(e, cs, r) else AllOf(e, cs, r)
  {
  }

  method Compact(conds: seq<Option<Cond>>) returns (out: seq<Cond>)
    ensures KeepsNonNil(conds, out) && out == Present(conds)
  {
    hide KeepsNonNil;
    PresentKeeps(conds);
    out := [];
    for i := 0 to |conds|
      invariant out + Present(conds[i..]) == Present(conds)
    {
      assert conds[i..][1..] == conds[i + 1..];
      if conds[i].Some? {
        out := out + [conds[i].value];
      }
    }
    assert conds[|conds|..] == [] && out + [] == out;
  }

  // ---------------------------------------------------------------- meaning

  /** A byte slice taken as the slice of numbers it is to reflection. */
  function ByteValues(bs: seq<Byte>): (vs: seq<Value>)
    ensures |vs| == |bs| && forall i :: 0 <= i < |bs| ==> vs[i] == Int(bs[i])
  {
    if bs == [] then [] else [Int(bs[0])] + ByteValues(bs[1..])
  }

  /** The elements an IN list is expanded to: those of a slice, bytes included, or the one value given. */
  function Elements(v: Value): seq<Value> {
    if v.Arr? then v.vs else if v.Bytes? then ByteValues(v.bs) else [v]
  }

  predicate EmptySlice(v: Value) {
    (v.Arr? && v.vs == []) || (v.Bytes? && v.bs == [])
  }

  function LeafMeaning(e: Env, o: Op, a: Value, v: Value): Tri {
    if o == OpNull then FromBool(a.Null?)
    else if o == OpNNull then FromBool(!a.Null?)
    else if o == OpIn then Member(e, a, Elements(v))
    else if o == OpNotIn then Not3(Member(e, a, Elements(v)))
    else Compare(e, o, a, v)
  }

  function Eval(e: Env, c: Cond, r: Row): Tri
    decreases c, 1
  {
    match c
    case Leaf(col, o, v) => LeafMeaning(e, o, Col(r, col), v)
    case Group(or, cs) => if or then AnyOf(e, cs, r) else AllOf(e, cs, r)
    case Raw(sql, args) => FragmentMeaning(e, Parts(Text.Split(sql, '?'), args), r)
    case Exists(negate, src, on, inner) =>
      var found := exists i :: (
          && 0 <= i < |e.source(src)|
          && And3(e.on(on, r + e.source(src)[i]),
                  if inner.None? then True else Eval(e, inner.value, r + e.source(src)[i])) == True);
      FromBool(if negate then !found else found)
    case FullText(col, config, query) => MatchMeaning(e, config, Col(r, col), Str(query))
  }

  function AllOf(e: Env, cs: seq<Cond>, r: Row): Tri
    decreases cs, 0
  {
    if cs == [] then True else And3(Eval(e, cs[0], r), AllOf(e, cs[1..], r))
  }

  function AnyOf(e: Env, cs: seq<Cond>, r: Row): Tri
    decreases cs, 0
  {
    if cs == [] then False else Or3(Eval(e, cs[0], r), AnyOf(e, cs[1..], r))
  }

  /** The pieces of a fragment with the values bound between them. A marker without a value is
      dropped, and so is a value without a marker. */
  function Parts(pieces: seq<string>, args: seq<Value>): seq<Part> {
    if pieces == [] then []
    else
      (if pieces[0] != "" then [PText(pieces[0])] else []) +
      (if |pieces| > 1 && args != [] then [PValue(args[0])] + Parts(pieces[1..], args[1..])
       else Parts(pieces[1..], args))
  }

  /** The tree renders as the empty text. */
  predicate Vacuous(c: Cond) {
    match c
    case Group(_, cs) => cs == [] || (|cs| == 1 && Vacuous(cs[0]))
    case Raw(sql, args) => BlankPieces(Text.Split(sql, '?'), args)
    case _ => false
  }

  predicate BlankPieces(pieces: seq<string>, args: seq<Value>) {
    (|pieces| <= 1 || args == []) && forall i :: 0 <= i < |pieces| ==> pieces[i] == ""
  }

  /** No child that renders as nothing stands next to a connective. */
  predicate Clean(c: Cond) {
    match c
    case Group(_, cs) =>
      && (forall i :: 0 <= i < |cs| ==> Clean(cs[i]))
      && (|cs| > 1 ==> forall i :: 0 <= i < |cs| ==> !Vacuous(cs[i]))
    case Exists(_, _, _, inner) => inner.Some? ==> Clean(inner.value) && !Vacuous(inner.value)
    case _ => true
  }

  predicate CleanFilter(c: Option<Cond>) {
    c.Some? ==> Clean(c.value)
  }

  /** The rows a WHERE made from `c` keeps. No condition, or one that renders as nothing, keeps
      every row. */
  predicate Holds(e: Env, c: Option<Cond>, r: Row) {
    c.None? || Vacuous(c.value) || Eval(e, c.value, r) == True
  }

  lemma {:induction false} AllOfTrue(e: Env, cs: seq<Cond>, r: Row)
    ensures AllOf(e, cs, r) == True <==> forall i :: 0 <= i < |cs| ==> Eval(e, cs[i], r) == True
  {
    if cs != [] {
      AllOfTrue(e, cs[1..], r);
      assert forall i :: 0 < i < |cs| ==> cs[i] == cs[1..][i - 1];
      assert forall i :: 0 <= i < |cs[1..]| ==> cs[1..][i] == cs[i + 1];
    }
  }

  lemma {:induction false} AnyOfTrue(e: Env, cs: seq<Cond>, r: Row)
    ensures AnyOf(e, cs, r) == True <==> exists i :: 0 <= i < |cs| && Eval(e, cs[i], r) == True
  {
    if cs != [] {
      AnyOfTrue(e, cs[1..], r);
      assert forall i :: 0 < i < |cs| ==> cs[i] == cs[1..][i - 1];
      assert forall i :: 0 <= i < |cs[1..]| ==> cs[1..][i] == cs[i + 1];
    }
  }

  lemma {:induction false} MemberMeans(e: Env, a: Value, vs: seq<Value>)
    ensures Member(e, a, vs) == True <==> exists i :: 0 <= i < |vs| && Compare(e, OpEq, a, vs[i]) == True
    ensures Member(e, a, vs) == False <==> forall i :: 0 <= i < |vs| ==> Compare(e, OpEq, a, vs[i]) == False
  {
    if vs != [] {
      hide Compare;
      MemberMeans(e, a, vs[1..]);
      assert forall i :: 0 < i < |vs| ==> vs[i] == vs[1..][i - 1];
      assert forall i :: 0 <= i < |vs[1..]| ==> vs[1..][i] == vs[i + 1];
    }
  }

  /** IN over a slice is true exactly when some element compares equal, NOT IN exactly when every element
      compares different, so never beside a NULL; bytes count as numbers, and a value that is no slice
      is the only element. */
  lemma InMeans(e: Env, col: string, v: Value, r: Row)
    ensures var a, isIn, notIn := Col(r, col), Eval(e, Leaf(col, OpIn, v), r), Eval(e, Leaf(col, OpNotIn, v), r);
      && (v.Arr? ==> (
            && (isIn == True <==> exists i :: 0 <= i < |v.vs| && Compare(e, OpEq, a, v.vs[i]) == True)
            && (notIn == True <==> forall i :: 0 <= i < |v.vs| ==> Compare(e, OpEq, a, v.vs[i]) == False)))
      && (v.Bytes? ==> (
            && (isIn == True <==> exists i :: 0 <= i < |v.bs| && Compare(e, OpEq, a, Int(v.bs[i])) == True)
            && (notIn == True <==> forall i :: 0 <= i < |v.bs| ==> Compare(e, OpEq, a, Int(v.bs[i])) == False)))
      && (!v.Arr? && !v.Bytes? ==> isIn == Compare(e, OpEq, a, v) && notIn == Not3(isIn))
  {
    MemberMeans(e, Col(r, col), Elements(v));
    LeafEval(e, col, OpIn, v, r);
    LeafEval(e, col, OpNotIn, v, r);
    hide Eval;
    if !v.Arr? && !v.Bytes? {
      assert [v][1..] == [];
    }
  }

  lemma LeafEval(e: Env, col: string, o: Op, v: Value, r: Row)
    ensures Eval(e, Leaf(col, o, v), r) == LeafMeaning(e, o, Col(r, col), v)
  {
  }

  lemma SingleChild(e: Env, or: bool, c: Cond, r: Row)
    ensures Eval(e, Group(or, [c]), r) == Eval(e, c, r)
    ensures GroupArgs([c]) == CondArgs(c)
  {
    var cs := [c];
    assert cs[1..] == [];
    assert GroupArgs(cs[1..]) == [];
    assert AllOf(e, cs[1..], r) == True && AnyOf(e, cs[1..], r) == False;
    assert AllOf(e, cs, r) == And3(Eval(e, c, r), True);
    assert AnyOf(e, cs, r) == Or3(Eval(e, c, r), False);
  }

  /** The fragment with a marker for each value bound in it, and those values. */
  function Spelled(parts: seq<Part>): string {
    if parts == [] then "" else (if parts[0].PText? then parts[0].s else "?") + Spelled(parts[1..])
  }

  function Bindings(parts: seq<Part>): seq<Value> {
    if parts == [] then [] else (if parts[0].PValue? then [parts[0].v] else []) + Bindings(parts[1..])
  }

  lemma SpelledStep(text: string, bound: seq<Value>, rest: seq<Part>)
    requires |bound| <= 1
    ensures var head := (if text != "" then [PText(text)] else []) + (if bound != [] then [PValue(bound[0])] else []);
      && Spelled(head + rest) == text + (if bound != [] then "?" else "") + Spelled(rest)
      && Bindings(head + rest) == bound + Bindings(rest)
  {
    var front := if text != "" then [PText(text)] else [];
    var back := if bound != [] then [PValue(bound[0])] + rest else rest;
    assert front + (if bound != [] then [PValue(bound[0])] else []) + rest == front + back;
    assert bound != [] ==> back[1..] == rest && [bound[0]] == bound;
    assert text != "" ==> (front + back)[1..] == back;
    assert text == "" ==> front + back == back;
  }

  lemma {:induction false} PiecesSpelled(pieces: seq<string>, args: seq<Value>)
    requires pieces != []
    ensures var n := if |args| < |pieces| - 1 then |args| else |pieces| - 1;
      Bindings(Parts(pieces, args)) == RawArgs(pieces, args) == args[..n]
    ensures |args| >= |pieces| - 1 ==> Spelled(Parts(pieces, args)) == Text.Join(pieces, '?')
    decreases pieces
  {
    if |pieces| == 1 {
      assert Parts(pieces[1..], args) == [];
      SpelledStep(pieces[0], [], []);
    } else if args != [] {
      PiecesSpelled(pieces[1..], args[1..]);
      SpelledStep(pieces[0], [args[0]], Parts(pieces[1..], args[1..]));
      var head := if pieces[0] != "" then [PText(pieces[0])] else [];
      Assoc(head, [PValue(args[0])], Parts(pieces[1..], args[1..]));
    } else {
      PiecesSpelled(pieces[1..], args);
      SpelledStep(pieces[0], [], Parts(pieces[1..], args));
    }
  }

  /** A fragment binds its values in order, as many as it has markers; with enough of them it reads, each
      value put back as a marker, exactly as the developer wrote it. */
  lemma RawMeans(sql: string, args: seq<Value>)
    ensures var pieces, parts := Text.Split(sql, '?'), Parts(Text.Split(sql, '?'), args);
      && Bindings(parts) == CondArgs(Raw(sql, args))
      && CondArgs(Raw(sql, args)) == (if |args| < |pieces| - 1 then args else args[..|pieces| - 1])
      && (|args| >= |pieces| - 1 ==> Spelled(parts) == sql)
  {
    PiecesSpelled(Text.Split(sql, '?'), args);
  }

  // ---------------------------------------------------------------- text and arguments

  /** The arguments a tree binds, in the order it binds them. */
  function CondArgs(c: Cond): seq<Value>
    decreases c, 1
  {
    match c
    case Leaf(_, o, v) =>
      if IsTest(o) then [] else if IsList(o) then Elements(v) else [v]
    case Group(_, cs) => GroupArgs(cs)
    case Raw(sql, args) => RawArgs(Text.Split(sql, '?'), args)
    case Exists(_, _, _, inner) => if inner.None? then [] else CondArgs(inner.value)
    case FullText(_, _, query) => [Str(query)]
  }

  function GroupArgs(cs: seq<Cond>): seq<Value>
    decreases cs, 0
  {
    if cs == [] then [] else CondArgs(cs[0]) + GroupArgs(cs[1..])
  }

  function RawArgs(pieces: seq<string>, args: seq<Value>): (bound: seq<Value>)
    ensures bound <= args
  {
    if |pieces| <= 1 || args == [] then [] else [args[0]] + RawArgs(pieces[1..], args[1..])
  }

  /** The text of a tree when `k` arguments are already bound. */
  function CondText(m: Marker, k: nat, c: Cond): seq<Token>
    decreases c, 1
  {
    match c
    case Leaf(col, o, v) => LeafText(m, k, col, o, v)
    case Group(or, cs) =>
      if |cs| <= 1 then JoinedText(m, k, or, cs)
      else [LParen] + JoinedText(m, k, or, cs) + [RParen]
    case Raw(sql, args) => RawText(m, k, Text.Split(sql, '?'), args)
    case Exists(negate, src, on, inner) =>
      ExistsHead(negate, src, on) +
      (if inner.None? then [] else [AndWord] + CondText(m, k, inner.value)) + [RParen]
    case FullText(col, config, _) => [MatchOpen(col, config), Place(m, k + 1), MatchClose]
  }

  function JoinedText(m: Marker, k: nat, or: bool, cs: seq<Cond>): seq<Token>
    decreases cs, 0
  {
    if cs == [] then []
    else if |cs| == 1 then CondText(m, k, cs[0])
    else CondText(m, k, cs[0]) + [Joiner(or)] + JoinedText(m, k + |CondArgs(cs[0])|, or, cs[1..])
  }

  function Joiner(or: bool): Token {
    if or then OrWord else AndWord
  }

  function ExistsHead(negate: bool, src: string, on: string): seq<Token> {
    (if negate then [NotWord] else []) +
    [ExistsWord, LParen, SelectOne, FromWord, Source(src), WhereWord, OnText(on)]
  }

  function LeafText(m: Marker, k: nat, col: string, o: Op, v: Value): seq<Token> {
    if IsList(o) then
      if EmptySlice(v) then [Fragment(if o == OpIn then "1=0" else "1=1")]
      else [Ident(col), Oper(o), LParen] + ListText(m, k, |Elements(v)|) + [RParen]
    else if IsTest(o) then [Ident(col), Oper(o)]
    else [Ident(col), Oper(o), Place(m, k + 1)]
  }

  /** `n` placeholders separated by commas. */
  function ListText(m: Marker, k: nat, n: nat): seq<Token>
    decreases n
  {
    if n == 0 then []
    else if n == 1 then [Place(m, k + 1)]
    else [Place(m, k + 1), Comma] + ListText(m, k + 1, n - 1)
  }

  ghost function ListTail(m: Marker, k: nat, n: nat, first: bool): seq<Token> {
    Pending(Comma, ListText(m, k, n), n == 0, first)
  }

  lemma ListSteps(m: Marker, k: nat, n: nat, first: bool, text: seq<Token>)
    ensures n == 0 ==> text + ListTail(m, k, n, first) == text
    ensures first ==> ListTail(m, k, n, first) == ListText(m, k, n)
    ensures n > 0 ==> (
      text + ListTail(m, k, n, first) ==
      (if first then text else text + [Comma]) + [Place(m, k + 1)] + ListTail(m, k + 1, n - 1, false))
  {
    PendingEnds(Comma, ListText(m, k, n), text);
    if n > 0 {
      ListStep(m, k, n);
      PendingSteps(Comma, ListText(m, k, n), [Place(m, k + 1)], ListText(m, k + 1, n - 1), n == 1, first, text);
    }
  }

  lemma ListStep(m: Marker, k: nat, n: nat)
    requires n > 0
    ensures ListText(m, k, n) == [Place(m, k + 1)] + ListTail(m, k + 1, n - 1, false)
  {
    if n == 1 {
      assert [Place(m, k + 1)] + [] == [Place(m, k + 1)];
    }
  }

  ghost function JoinedTail(m: Marker, k: nat, or: bool, cs: seq<Cond>, first: bool): seq<Token> {
    Pending(Joiner(or), JoinedText(m, k, or, cs), cs == [], first)
  }

  function RawText(m: Marker, k: nat, pieces: seq<string>, args: seq<Value>): seq<Token>
    decreases pieces
  {
    if pieces == [] then []
    else
      (if pieces[0] != "" then [Fragment(pieces[0])] else []) +
      (if |pieces| > 1 && args != [] then [Place(m, k + 1)] + RawText(m, k + 1, pieces[1..], args[1..])
       else RawText(m, k, pieces[1..], args))
  }

  /** What a WHERE or HAVING clause gets: nothing for nil. */
  function FilterText(m: Marker, k: nat, c: Option<Cond>): seq<Token> {
    if c.None? then [] else CondText(m, k, c.value)
  }

  function FilterArgs(c: Option<Cond>): seq<Value> {
    if c.None? then [] else CondArgs(c.value)
  }

  lemma RawSteps(m: Marker, k: nat, pieces: seq<string>, args: seq<Value>, text: seq<Token>, bound: seq<Value>)
    ensures pieces == [] ==> text + RawText(m, k, pieces, args) == text && bound + RawArgs(pieces, args) == bound
    ensures pieces != [] ==>
      var before := if pieces[0] != "" then text + [Fragment(pieces[0])] else text;
      if |pieces| > 1 && args != [] then
        && text + RawText(m, k, pieces, args) == before + [Place(m, k + 1)] + RawText(m, k + 1, pieces[1..], args[1..])
        && bound + RawArgs(pieces, args) == bound + [args[0]] + RawArgs(pieces[1..], args[1..])
      else
        forall rest :: (|pieces| == 1 || rest == args) ==> (
          && text + RawText(m, k, pieces, args) == before + RawText(m, k, pieces[1..], rest)
          && bound + RawArgs(pieces, args) == bound + RawArgs(pieces[1..], rest))
  {
    if pieces != [] {
      var piece := if pieces[0] != "" then [Fragment(pieces[0])] else [];
      assert text + piece == if pieces[0] != "" then text + [Fragment(pieces[0])] else text;
      if |pieces| > 1 && args != [] {
        var tail := RawText(m, k + 1, pieces[1..], args[1..]);
        Assoc(text, piece, [Place(m, k + 1)] + tail);
        Assoc(text + piece, [Place(m, k + 1)], tail);
        Assoc(bound, [args[0]], RawArgs(pieces[1..], args[1..]));
      } else {
        Assoc(text, piece, RawText(m, k, pieces[1..], args));
        assert |pieces| == 1 ==> pieces[1..] == [];
      }
    }
  }

  lemma JoinedStep(m: Marker, k: nat, or: bool, cs: seq<Cond>)
    requires cs != []
    ensures JoinedText(m, k, or, cs) ==
      CondText(m, k, cs[0]) + JoinedTail(m, k + |CondArgs(cs[0])|, or, cs[1..], false)
  {
    hide CondText;
    hide CondArgs;
    var t := CondText(m, k, cs[0]);
    if |cs| > 1 {
      Assoc(t, [Joiner(or)], JoinedText(m, k + |CondArgs(cs[0])|, or, cs[1..]));
    } else {
      assert t + [] == t;
    }
  }

  lemma JoinedSteps(m: Marker, k: nat, or: bool, cs: seq<Cond>, first: bool, text: seq<Token>)
    ensures cs == [] ==> text + JoinedTail(m, k, or, cs, first) == text
    ensures first ==> JoinedTail(m, k, or, cs, first) == JoinedText(m, k, or, cs)
    ensures cs != [] ==> (
      text + JoinedTail(m, k, or, cs, first) ==
      (if first then text else text + [Joiner(or)]) + CondText(m, k, cs[0]) +
      JoinedTail(m, k + |CondArgs(cs[0])|, or, cs[1..], false))
  {
    hide CondText;
    hide CondArgs;
    PendingEnds(Joiner(or), JoinedText(m, k, or, cs), text);
    if cs != [] {
      JoinedStep(m, k, or, cs);
      PendingSteps(Joiner(or), JoinedText(m, k, or, cs), CondText(m, k, cs[0]),
        JoinedText(m, k + |CondArgs(cs[0])|, or, cs[1..]), |cs| == 1, first, text);
    }
  }

  // ---------------------------------------------------------------- the builder

  /** One render pass: text, arguments and the number of arguments bound so far. */
  class Builder {
    var sql: seq<Token>
    var args: seq<Value>
    var n: nat
    const m: Marker

    constructor (m: Marker, start: nat)
      ensures sql == [] && args == [] && n == start && this.m == m
    {
      this.sql, this.args, this.n, this.m := [], [], start, m;
    }

    method Bind(v: Value) returns (t: Token)
      modifies this
      ensures t == Place(m, old(n) + 1)
      ensures sql == old(sql) && args == old(args) + [v] && n == old(n) + 1
    {
      n := n + 1;
      args := args + [v];
      t := Place(m, n);
    }

    method WriteList(vs: seq<Value>)
      modifies this
      ensures sql == old(sql) + ListText(m, old(n), |vs|)
      ensures args == old(args) + vs && n == old(n) + |vs|
    {
      hide ListText;
      hide ListTail;
      ghost var allText := sql + ListText(m, n, |vs|);
      ListSteps(m, n, |vs|, true, sql);
      for i := 0 to |vs|
        invariant n == old(n) + i && args == old(args) + vs[..i]
        invariant sql + ListTail(m, n, |vs| - i, i == 0) == allText
      {
        ListSteps(m, n, |vs| - i, i == 0, sql);
        if i > 0 {
          sql := sql + [Comma];
        }
        var t := Bind(vs[i]);
        sql := sql + [t];
      }
      ListSteps(m, n, 0, |vs| == 0, sql);
    }

    method WriteLeaf(col: string, o: Op, v: Value)
      modifies this
      ensures sql == old(sql) + LeafText(m, old(n), col, o, v)
      ensures args == old(args) + CondArgs(Leaf(col, o, v))
      ensures n == old(n) + |CondArgs(Leaf(col, o, v))|
    {
      if IsList(o) && EmptySlice(v) {
        sql := sql + [Fragment(if o == OpIn then "1=0" else "1=1")];
        return;
      }
      ghost var before := sql;
      sql := sql + [Ident(col)];
      if IsTest(o) {
        sql := sql + [Oper(o)];
        Assoc(before, [Ident(col)], [Oper(o)]);
      } else if IsList(o) {
        ghost var head, list := [Ident(col), Oper(o), LParen], ListText(m, n, |Elements(v)|);
        sql := sql + [Oper(o), LParen];
        Assoc(before, [Ident(col)], [Oper(o), LParen]);
        assert sql == before + head;
        WriteList(Elements(v));
        Assoc(before, head, list);
        sql := sql + [RParen];
        Assoc(before, head + list, [RParen]);
      } else {
        sql := sql + [Oper(o)];
        var t := Bind(v);
        sql := sql + [t];
        assert sql == before + [Ident(col), Oper(o), t];
      }
    }

    /** The pieces of a fragment, each but the last followed by the next value, if there is one. */
    method WriteRaw(parts: seq<string>, values: seq<Value>)
      modifies this
      ensures sql == old(sql) + RawText(m, old(n), parts, values)
      ensures args == old(args) + RawArgs(parts, values)
      ensures n == old(n) + |RawArgs(parts, values)|
    {
      hide RawText;
      hide RawArgs;
      ghost var rest := values;
      ghost var allText, allArgs := sql + RawText(m, n, parts, values), args + RawArgs(parts, values);
      for i := 0 to |parts|
        invariant rest == if i <= |values| then values[i..] else []
        invariant sql + RawText(m, n, parts[i..], rest) == allText
        invariant args + RawArgs(parts[i..], rest) == allArgs
        invariant n - old(n) == |args| - |old(args)|
      {
        assert parts[i..][1..] == parts[i + 1..];
        RawSteps(m, n, parts[i..], rest, sql, args);
        if parts[i] != "" {
          sql := sql + [Fragment(parts[i])];
        }
        if i < |parts| - 1 && i < |values| {
          var t := Bind(values[i]);
          sql := sql + [t];
          rest := rest[1..];
        } else {
          rest := if i + 1 <= |values| then values[i + 1..] else [];
        }
      }
      RawSteps(m, n, [], rest, sql, args);
    }

    method WriteGroup(or: bool, conds: seq<Cond>)
      modifies this
      ensures sql == old(sql) + CondText(m, old(n), Group(or, conds))
      ensures args == old(args) + GroupArgs(conds)
      ensures n == old(n) + |GroupArgs(conds)|
      decreases conds, 1
    {
      if |conds| == 0 {
        return;
      }
      if |conds| == 1 {
        Write(conds[0]);
        assert conds[1..] == [];
        return;
      }
      ghost var start, joined := sql, JoinedText(m, n, or, conds);
      sql := sql + [LParen];
      WriteJoined(or, conds);
      sql := sql + [RParen];
      Assoc(start, [LParen], joined);
      Assoc(start, [LParen] + joined, [RParen]);
    }

    /** The children of a group with the connective between them. */
    method WriteJoined(or: bool, conds: seq<Cond>)
      modifies this
      ensures sql == old(sql) + JoinedText(m, old(n), or, conds)
      ensures args == old(args) + GroupArgs(conds)
      ensures n == old(n) + |GroupArgs(conds)|
      decreases conds, 0
    {
      hide JoinedText;
      hide JoinedTail;
      hide CondText;
      hide CondArgs;
      ghost var allText, allArgs := sql + JoinedText(m, n, or, conds), args + GroupArgs(conds);
      JoinedSteps(m, n, or, conds, true, sql);
      for i := 0 to |conds|
        invariant sql + JoinedTail(m, n, or, conds[i..], i == 0) == allText
        invariant args + GroupArgs(conds[i..]) == allArgs
        invariant n - old(n) == |args| - |old(args)|
      {
        JoinedSteps(m, n, or, conds[i..], i == 0, sql);
        assert conds[i..][1..] == conds[i + 1..];
        Assoc(args, CondArgs(conds[i]), GroupArgs(conds[i + 1..]));
        if i > 0 {
          sql := sql + [Joiner(or)];
        }
        Write(conds[i]);
      }
      assert conds[|conds|..] == [];
      JoinedSteps(m, n, or, [], |conds| == 0, sql);
    }

    method Write(c: Cond)
      modifies this
      ensures sql == old(sql) + CondText(m, old(n), c)
      ensures args == old(args) + CondArgs(c)
      ensures n == old(n) + |CondArgs(c)|
      decreases c, 0
    {
      match c
      case Leaf(col, o, v) => WriteLeaf(col, o, v);
      case Group(or, conds) => WriteGroup(or, conds);
      case Raw(text, values) => WriteRaw(Text.Split(text, '?'), values);
      case Exists(negate, src, on, inner) =>
        ghost var start, head := sql, ExistsHead(negate, src, on);
        if negate {
          sql := sql + [NotWord];
        }
        sql := sql + [ExistsWord, LParen, SelectOne, FromWord, Source(src), WhereWord, OnText(on)];
        assert sql == start + head;
        ghost var tail := [];
        if inner.Some? {
          tail := [AndWord] + CondText(m, n, inner.value);
          sql := sql + [AndWord];
          Write(inner.value);
          Assoc(start + head, [AndWord], CondText(m, old(n), inner.value));
        }
        Assoc(start, head, tail);
        Assoc(start, head + tail, [RParen]);
        sql := sql + [RParen];
      case FullText(col, config, query) =>
        var t := Bind(Str(query));
        sql := sql + [MatchOpen(col, config), t, MatchClose];
    }
  }

  /** Renders a condition with its placeholders following `start` earlier ones. */
  method BuildAt(c: Option<Cond>, m: Marker, start: nat) returns (sql: seq<Token>, args: seq<Value>)
    ensures sql == FilterText(m, start, c)
    ensures args == FilterArgs(c)
  {
    if c.None? {
      return [], [];
    }
    var b := new Builder(m, start);
    b.Write(c.value);
    sql, args := b.sql, b.args;
  }

  // ---------------------------------------------------------------- laws of rendering

  /** A tree renders as nothing exactly when it is vacuous, and then it binds nothing. */
  lemma {:induction false} BlankIffVacuous(m: Marker, k: nat, c: Cond)
    ensures CondText(m, k, c) == [] <==> Vacuous(c)
    ensures Vacuous(c) ==> CondArgs(c) == []
    decreases c
  {
    match c
    case Group(or, cs) =>
      if |cs| == 1 {
        BlankIffVacuous(m, k, cs[0]);
        assert cs[1..] == [];
        assert GroupArgs(cs[1..]) == [];
        assert GroupArgs(cs) == CondArgs(cs[0]) + [];
      }
    case Raw(sql, args) => RawBlank(m, k, Text.Split(sql, '?'), args);
    case _ =>
  }

  lemma {:induction false} RawBlank(m: Marker, k: nat, pieces: seq<string>, args: seq<Value>)
    ensures RawText(m, k, pieces, args) == [] <==> BlankPieces(pieces, args)
    ensures BlankPieces(pieces, args) ==> RawArgs(pieces, args) == []
    decreases pieces
  {
    if pieces != [] {
      if |pieces| > 1 && args != [] {
        RawBlank(m, k + 1, pieces[1..], args[1..]);
      } else {
        RawBlank(m, k, pieces[1..], args);
        assert forall i :: 0 < i < |pieces| ==> pieces[i] == pieces[1..][i - 1];
        assert forall i :: 0 <= i < |pieces[1..]| ==> pieces[1..][i] == pieces[i + 1];
        if |pieces| == 1 {
          assert RawText(m, k, pieces[1..], args) == [];
        }
      }
    }
  }

  /** The text uses exactly the placeholders of its own arguments, in order, and resolving the
      positional text gives the numbered one: the i-th `?` stands where `$i` stands. */
  lemma {:induction false} CondRenders(m: Marker, k: nat, c: Cond)
    ensures Renders(m, CondText(m, k, c), CondText(Numbered, k, c), k, |CondArgs(c)|)
    decreases c, 1
  {
    hide Renders;
    match c
    case Leaf(col, o, v) => LeafRenders(m, k, col, o, v);
    case Group(or, cs) => GroupRenders(m, k, or, cs);
    case Raw(sql, args) => RawRenders(m, k, Text.Split(sql, '?'), args);
    case Exists(negate, src, on, inner) => ExistsRenders(m, k, negate, src, on, inner);
    case FullText(col, config, query) => MatchRenders(m, k, col, config);
  }

  lemma MatchRenders(m: Marker, k: nat, col: string, config: string)
    ensures Renders(m, [MatchOpen(col, config), Place(m, k + 1), MatchClose],
      [MatchOpen(col, config), Slot(k + 1), MatchClose], k, 1)
  {
    hide Renders;
    var head := [MatchOpen(col, config)];
    RendersPlain(m, head, k);
    RendersPlace(m, k);
    RendersPlain(m, [MatchClose], k + 1);
    RendersConcat(m, head, head, [Place(m, k + 1)], [Slot(k + 1)], k, 0, 1);
    RendersConcat(m, head + [Place(m, k + 1)], head + [Slot(k + 1)], [MatchClose], [MatchClose], k, 1, 0);
    assert [MatchOpen(col, config), Place(m, k + 1), MatchClose] == head + [Place(m, k + 1)] + [MatchClose];
    assert [MatchOpen(col, config), Slot(k + 1), MatchClose] == head + [Slot(k + 1)] + [MatchClose];
  }

  lemma {:induction false} GroupRenders(m: Marker, k: nat, or: bool, cs: seq<Cond>)
    ensures Renders(m, CondText(m, k, Group(or, cs)), CondText(Numbered, k, Group(or, cs)), k, |GroupArgs(cs)|)
    decreases cs, 1
  {
    hide Renders;
    JoinedRenders(m, k, or, cs);
    if |cs| > 1 {
      var j, jn := JoinedText(m, k, or, cs), JoinedText(Numbered, k, or, cs);
      RendersPlain(m, [LParen], k);
      RendersPlain(m, [RParen], k + |GroupArgs(cs)|);
      RendersConcat(m, [LParen], [LParen], j, jn, k, 0, |GroupArgs(cs)|);
      RendersConcat(m, [LParen] + j, [LParen] + jn, [RParen], [RParen], k, |GroupArgs(cs)|, 0);
    }
  }

  lemma {:induction false} ExistsRenders(m: Marker, k: nat, negate: bool, src: string, on: string, inner: Option<Cond>)
    ensures var c := Exists(negate, src, on, inner);
      Renders(m, CondText(m, k, c), CondText(Numbered, k, c), k, |CondArgs(c)|)
    decreases inner, 2
  {
    hide Renders;
    var head := ExistsHead(negate, src, on);
    RendersPlain(m, head, k);
    if inner.None? {
      RendersPlain(m, [RParen], k);
      RendersConcat(m, head, head, [RParen], [RParen], k, 0, 0);
      assert head + [] == head;
    } else {
      var c := inner.value;
      var t, tn, n := CondText(m, k, c), CondText(Numbered, k, c), |CondArgs(c)|;
      CondRenders(m, k, c);
      RendersPlain(m, [AndWord], k);
      RendersPlain(m, [RParen], k + n);
      RendersConcat(m, [AndWord], [AndWord], t, tn, k, 0, n);
      RendersConcat(m, head, head, [AndWord] + t, [AndWord] + tn, k, 0, n);
      RendersConcat(m, head + ([AndWord] + t), head + ([AndWord] + tn), [RParen], [RParen], k, n, 0);
    }
  }

  lemma {:induction false} JoinedRenders(m: Marker, k: nat, or: bool, cs: seq<Cond>)
    ensures Renders(m, JoinedText(m, k, or, cs), JoinedText(Numbered, k, or, cs), k, |GroupArgs(cs)|)
    decreases cs, 0
  {
    hide Renders;
    hide CondText;
    if cs == [] {
      RendersPlain(m, [], k);
    } else {
      CondRenders(m, k, cs[0]);
      if |cs| == 1 {
        assert GroupArgs(cs[1..]) == [];
      } else {
        var n, p := |CondArgs(cs[0])|, |GroupArgs(cs[1..])|;
        var t, tn := CondText(m, k, cs[0]), CondText(Numbered, k, cs[0]);
        var j, jn := JoinedText(m, k + n, or, cs[1..]), JoinedText(Numbered, k + n, or, cs[1..]);
        JoinedRenders(m, k + n, or, cs[1..]);
        RendersPlain(m, [Joiner(or)], k + n);
        RendersConcat(m, t, tn, [Joiner(or)], [Joiner(or)], k, n, 0);
        RendersConcat(m, t + [Joiner(or)], tn + [Joiner(or)], j, jn, k, n, p);
      }
    }
  }

  lemma {:induction false} LeafRenders(m: Marker, k: nat, col: string, o: Op, v: Value)
    ensures Renders(m, LeafText(m, k, col, o, v), LeafText(Numbered, k, col, o, v), k, |CondArgs(Leaf(col, o, v))|)
  {
    hide Renders;
    if o == OpNull || o == OpNNull {
      RendersPlain(m, [Ident(col), Oper(o)], k);
    } else if o == OpIn || o == OpNotIn {
      if EmptySlice(v) {
        RendersPlain(m, LeafText(m, k, col, o, v), k);
      } else {
        var head, n := [Ident(col), Oper(o), LParen], |Elements(v)|;
        RendersPlain(m, head, k);
        ListRenders(m, k, n);
        RendersPlain(m, [RParen], k + n);
        RendersConcat(m, head, head, ListText(m, k, n), ListText(Numbered, k, n), k, 0, n);
        RendersConcat(m, head + ListText(m, k, n), head + ListText(Numbered, k, n), [RParen], [RParen], k, n, 0);
      }
    } else {
      RendersPlain(m, [Ident(col), Oper(o)], k);
      RendersPlace(m, k);
      RendersConcat(m, [Ident(col), Oper(o)], [Ident(col), Oper(o)], [Place(m, k + 1)], [Slot(k + 1)], k, 0, 1);
      assert [Ident(col), Oper(o), Place(m, k + 1)] == [Ident(col), Oper(o)] + [Place(m, k + 1)];
      assert [Ident(col), Oper(o), Slot(k + 1)] == [Ident(col), Oper(o)] + [Slot(k + 1)];
    }
  }

  lemma {:induction false} ListRenders(m: Marker, k: nat, n: nat)
    ensures Renders(m, ListText(m, k, n), ListText(Numbered, k, n), k, n)
    decreases n
  {
    hide Renders;
    if n == 0 {
      RendersPlain(m, [], k);
    } else {
      RendersPlace(m, k);
      if n > 1 {
        assert [Place(m, k + 1), Comma] == [Place(m, k + 1)] + [Comma];
        assert [Slot(k + 1), Comma] == [Slot(k + 1)] + [Comma];
        ListRenders(m, k + 1, n - 1);
        RendersPlain(m, [Comma], k + 1);
        RendersConcat(m, [Place(m, k + 1)], [Slot(k + 1)], [Comma], [Comma], k, 1, 0);
        RendersConcat(m, [Place(m, k + 1)] + [Comma], [Slot(k + 1)] + [Comma],
          ListText(m, k + 1, n - 1), ListText(Numbered, k + 1, n - 1), k, 1, n - 1);
      }
    }
  }

  lemma {:induction false} RawRenders(m: Marker, k: nat, pieces: seq<string>, args: seq<Value>)
    ensures Renders(m, RawText(m, k, pieces, args), RawText(Numbered, k, pieces, args), k, |RawArgs(pieces, args)|)
    decreases pieces
  {
    hide Renders;
    if pieces == [] {
      RendersPlain(m, [], k);
    } else {
      var head := if pieces[0] != "" then [Fragment(pieces[0])] else [];
      RendersPlain(m, head, k);
      if |pieces| > 1 && args != [] {
        var rest, restN := RawText(m, k + 1, pieces[1..], args[1..]), RawText(Numbered, k + 1, pieces[1..], args[1..]);
        var n := |RawArgs(pieces[1..], args[1..])|;
        RawRenders(m, k + 1, pieces[1..], args[1..]);
        RendersPlace(m, k);
        RendersConcat(m, [Place(m, k + 1)], [Slot(k + 1)], rest, restN, k, 1, n);
        RendersConcat(m, head, head, [Place(m, k + 1)] + rest, [Slot(k + 1)] + restN, k, 0, n + 1);
      } else {
        RawRenders(m, k, pieces[1..], args);
        if args != [] {
          assert pieces[1..] == [];
        }
        RendersConcat(m, head, head, RawText(m, k, pieces[1..], args), RawText(Numbered, k, pieces[1..], args), k, 0,
          0);
      }
    }
  }

  // ---------------------------------------------------------------- rendering at an offset

  /** `?` text does not depend on how many arguments are bound before it. */
  lemma {:induction false} PositionalText(k: nat, j: nat, c: Cond)
    ensures CondText(Positional, k, c) == CondText(Positional, j, c)
    decreases c, 1
  {
    match c
    case Leaf(col, o, v) =>
      if IsList(o) {
        PositionalList(k, j, |Elements(v)|);
      }
    case Group(or, cs) => PositionalJoined(k, j, or, cs);
    case Raw(sql, args) => PositionalRaw(k, j, Text.Split(sql, '?'), args);
    case Exists(_, _, _, inner) =>
      if inner.Some? {
        PositionalText(k, j, inner.value);
      }
    case FullText(_, _, _) =>
  }

  lemma {:induction false} PositionalJoined(k: nat, j: nat, or: bool, cs: seq<Cond>)
    ensures JoinedText(Positional, k, or, cs) == JoinedText(Positional, j, or, cs)
    decreases cs, 0
  {
    if cs != [] {
      hide CondText;
      PositionalText(k, j, cs[0]);
      PositionalJoined(k + |CondArgs(cs[0])|, j + |CondArgs(cs[0])|, or, cs[1..]);
    }
  }

  lemma {:induction false} PositionalList(k: nat, j: nat, n: nat)
    ensures ListText(Positional, k, n) == ListText(Positional, j, n)
    decreases n
  {
    if n > 1 {
      PositionalList(k + 1, j + 1, n - 1);
    }
  }

  lemma {:induction false} PositionalRaw(k: nat, j: nat, pieces: seq<string>, args: seq<Value>)
    ensures RawText(Positional, k, pieces, args) == RawText(Positional, j, pieces, args)
    decreases pieces
  {
    if pieces != [] {
      if |pieces| > 1 && args != [] {
        PositionalRaw(k + 1, j + 1, pieces[1..], args[1..]);
      } else {
        PositionalRaw(k, j, pieces[1..], args);
      }
    }
  }

  /** Rendering `j` arguments later moves every numbered placeholder up by `j` and changes nothing
      else; on `?` dialects it changes nothing at all. */
  lemma OffsetShifts(k: nat, j: nat, c: Cond)
    ensures CondText(Numbered, k + j, c) == Shift(CondText(Numbered, k, c), j)
    ensures CondText(Positional, k + j, c) == CondText(Positional, k, c)
  {
    hide CondText;
    CondRenders(Positional, k, c);
    CondRenders(Positional, k + j, c);
    PositionalText(k + j, k, c);
    NoSlots(CondText(Positional, k, c), k, |CondArgs(c)|);
    ResolveShift(CondText(Positional, k, c), k, j);
  }
}
