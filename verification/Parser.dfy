/**
  Reading a WHERE text back with SQL's precedence: NOT before AND before OR. The theorem is that
  the text of a tree reads as that tree exactly when no child that renders as nothing stands
  next to a connective, and that it then has the tree's meaning.
 */
module Parser {
  import opened Logic
  import opened Sql
  import opened Conditions
  import opened Wrappers
  import Text

  /** Boolean expressions over columns and argument positions. */
  datatype Expr =
    | Test(col: string, op: Op)
    | Comparison(col: string, op: Op, slot: nat)
    | InList(col: string, op: Op, slots: seq<nat>)
    | Verbatim(items: seq<Token>)
    | Correlation(on: string)
    | Match(col: string, config: string, slot: nat)
    | ExistsRow(src: string, body: Expr)
    | Not(e: Expr)
    | Conj(es: seq<Expr>)
    | Disj(es: seq<Expr>)

  datatype Parsed<+T> = Fail | Got(value: T, rest: seq<Token>)

  // ---------------------------------------------------------------- the parser

  function ParseOr(ts: seq<Token>): (p: Parsed<Expr>)
    ensures p.Got? ==> |p.rest| < |ts|
    decreases |ts|, 4
  {
    match ParseOrList(ts)
    case Fail => Fail
    case Got(es, rest) => Got(if |es| == 1 then es[0] else Disj(es), rest)
  }

  function ParseOrList(ts: seq<Token>): (p: Parsed<seq<Expr>>)
    ensures p.Got? ==> |p.rest| < |ts|
    decreases |ts|, 3
  {
    match ParseAnd(ts)
    case Fail => Fail
    case Got(e, rest) =>
      if rest == [] || !rest[0].OrWord? then Got([e], rest)
      else
        match ParseOrList(rest[1..])
        case Fail => Fail
        case Got(es, rest') => Got([e] + es, rest')
  }

  function ParseAnd(ts: seq<Token>): (p: Parsed<Expr>)
    ensures p.Got? ==> |p.rest| < |ts|
    decreases |ts|, 2
  {
    match ParseAndList(ts)
    case Fail => Fail
    case Got(es, rest) => Got(if |es| == 1 then es[0] else Conj(es), rest)
  }

  function ParseAndList(ts: seq<Token>): (p: Parsed<seq<Expr>>)
    ensures p.Got? ==> |p.rest| < |ts|
    decreases |ts|, 1
  {
    match ParsePrimary(ts)
    case Fail => Fail
    case Got(e, rest) =>
      if rest == [] || !rest[0].AndWord? then Got([e], rest)
      else
        match ParseAndList(rest[1..])
        case Fail => Fail
        case Got(es, rest') => Got([e] + es, rest')
  }

  function ParsePrimary(ts: seq<Token>): (p: Parsed<Expr>)
    ensures p.Got? ==> |p.rest| < |ts|
    decreases |ts|, 0
  {
    if ts == [] then Fail
    else if ts[0].LParen? then ParseClosed(ts[1..])
    else if ts[0].NotWord? then
      (match ParsePrimary(ts[1..])
       case Fail => Fail
       case Got(e, rest) => Got(Not(e), rest))
    else if ts[0].ExistsWord? then
      (if !IsSubqueryHead(ts) then Fail
       else
         match ParseClosed(ts[6..])
         case Fail => Fail
         case Got(e, rest) => Got(ExistsRow(ts[4].src, e), rest))
    else if ts[0].OnText? then Got(Correlation(ts[0].on), ts[1..])
    else if ts[0].Ident? then ParseComparison(ts)
    else if ts[0].MatchOpen? then
      (if |ts| >= 3 && ts[1].Slot? && ts[2].MatchClose? then Got(Match(ts[0].col, ts[0].config, ts[1].k), ts[3..])
       else Fail)
    else if InFragment(ts[0]) then
      var n := FragmentLength(ts);
      Got(Verbatim(ts[..n]), ts[n..])
    else Fail
  }

  /** An expression and its closing parenthesis. */
  function ParseClosed(ts: seq<Token>): (p: Parsed<Expr>)
    ensures p.Got? ==> |p.rest| < |ts|
    decreases |ts|, 5
  {
    match ParseOr(ts)
    case Fail => Fail
    case Got(e, rest) => if rest != [] && rest[0].RParen? then Got(e, rest[1..]) else Fail
  }

  predicate IsSubqueryHead(ts: seq<Token>) {
    |ts| >= 6 && ts[1].LParen? && ts[2].SelectOne? && ts[3].FromWord? && ts[4].Source? && ts[5].WhereWord?
  }

  function ParseComparison(ts: seq<Token>): (p: Parsed<Expr>)
    requires ts != [] && ts[0].Ident?
    ensures p.Got? ==> |p.rest| < |ts|
  {
    if |ts| < 2 || !ts[1].Oper? then Fail
    else if IsTest(ts[1].o) then Got(Test(ts[0].name, ts[1].o), ts[2..])
    else if IsList(ts[1].o) then
      (if |ts| < 3 || !ts[2].LParen? then Fail
       else
         match ParseSlots(ts[3..])
         case Fail => Fail
         case Got(slots, rest) =>
           if rest != [] && rest[0].RParen? then Got(InList(ts[0].name, ts[1].o, slots), rest[1..]) else Fail)
    else if |ts| >= 3 && ts[2].Slot? then Got(Comparison(ts[0].name, ts[1].o, ts[2].k), ts[3..])
    else Fail
  }

  function ParseSlots(ts: seq<Token>): (p: Parsed<seq<nat>>)
    ensures p.Got? ==> |p.rest| < |ts|
  {
    if ts == [] || !ts[0].Slot? then Fail
    else if |ts| >= 2 && ts[1].Comma? then
      match ParseSlots(ts[2..])
      case Fail => Fail
      case Got(slots, rest) => Got([ts[0].k] + slots, rest)
    else Got([ts[0].k], ts[1..])
  }

  predicate InFragment(t: Token) {
    t.Fragment? || t.Slot?
  }

  /** The longest run of fragment text and placeholders at the front. */
  function FragmentLength(ts: seq<Token>): (n: nat)
    ensures n <= |ts|
    ensures ts != [] && InFragment(ts[0]) ==> n > 0
  {
    if ts == [] || !InFragment(ts[0]) then 0 else 1 + FragmentLength(ts[1..])
  }

  // ---------------------------------------------------------------- what an expression means

  /** Argument `$k`. The database rejects a reference past the arguments; the parser's callers
      never make one. */
  function Arg(args: seq<Value>, k: nat): Value {
    if 1 <= k <= |args| then args[k - 1] else Null
  }

  function SlotValues(args: seq<Value>, slots: seq<nat>): seq<Value> {
    if slots == [] then [] else [Arg(args, slots[0])] + SlotValues(args, slots[1..])
  }

  function BoundParts(args: seq<Value>, items: seq<Token>): seq<Part> {
    if items == [] then []
    else
      (if items[0].Fragment? then [PText(items[0].s)]
       else if items[0].Slot? then [PValue(Arg(args, items[0].k))]
       else []) + BoundParts(args, items[1..])
  }

  function Meaning(e: Env, args: seq<Value>, x: Expr, r: Row): Tri
    decreases x, 1
  {
    match x
    case Test(col, o) => LeafMeaning(e, o, Col(r, col), Null)
    case Comparison(col, o, k) => LeafMeaning(e, o, Col(r, col), Arg(args, k))
    case InList(col, o, slots) => LeafMeaning(e, o, Col(r, col), Arr(SlotValues(args, slots)))
    case Verbatim(items) => FragmentMeaning(e, BoundParts(args, items), r)
    case Correlation(on) => e.on(on, r)
    case Match(col, config, k) => MatchMeaning(e, config, Col(r, col), Arg(args, k))
    case ExistsRow(src, body) =>
      FromBool(exists i :: 0 <= i < |e.source(src)| && Meaning(e, args, body, r + e.source(src)[i]) == True)
    case Not(y) => Not3(Meaning(e, args, y, r))
    case Conj(es) => AllMeaning(e, args, es, r)
    case Disj(es) => AnyMeaning(e, args, es, r)
  }

  function AllMeaning(e: Env, args: seq<Value>, es: seq<Expr>, r: Row): Tri
    decreases es, 0
  {
    if es == [] then True else And3(Meaning(e, args, es[0], r), AllMeaning(e, args, es[1..], r))
  }

  function AnyMeaning(e: Env, args: seq<Value>, es: seq<Expr>, r: Row): Tri
    decreases es, 0
  {
    if es == [] then False else Or3(Meaning(e, args, es[0], r), AnyMeaning(e, args, es[1..], r))
  }

  // ---------------------------------------------------------------- the tree that comes back

  /** The expression a tree stands for: single-child groups are gone, an empty IN is `1=0` and an
      empty NOT IN is `1=1`. */
  function Tree(k: nat, c: Cond): Expr
    decreases c, 1
  {
    match c
    case Leaf(col, o, v) =>
      if IsList(o) then
        if EmptySlice(v) then Verbatim([Fragment(if o == OpIn then "1=0" else "1=1")])
        else InList(col, o, Consecutive(k, |Elements(v)|))
      else if IsTest(o) then Test(col, o)
      else Comparison(col, o, k + 1)
    case Group(or, cs) =>
      if |cs| == 1 then Tree(k, cs[0])
      else if or then Disj(Trees(k, cs)) else Conj(Trees(k, cs))
    case Raw(sql, args) => Verbatim(RawText(Numbered, k, Text.Split(sql, '?'), args))
    case Exists(negate, src, on, inner) =>
      var body := if inner.None? then Correlation(on) else Conj([Correlation(on), Tree(k, inner.value)]);
      if negate then Not(ExistsRow(src, body)) else ExistsRow(src, body)
    case FullText(col, config, _) => Match(col, config, k + 1)
  }

  function Consecutive(k: nat, n: nat): seq<nat>
    decreases n
  {
    if n == 0 then [] else [k + 1] + Consecutive(k + 1, n - 1)
  }

  function Trees(k: nat, cs: seq<Cond>): (es: seq<Expr>)
    ensures |es| == |cs|
    decreases cs, 0
  {
    if cs == [] then [] else [Tree(k, cs[0])] + Trees(k + |CondArgs(cs[0])|, cs[1..])
  }

  // ---------------------------------------------------------------- text reads as the tree

  predicate StartsFragment(ts: seq<Token>) {
    ts != [] && InFragment(ts[0])
  }

  predicate AllFit(cs: seq<Cond>) {
    forall i :: 0 <= i < |cs| ==> Clean(cs[i]) && !Vacuous(cs[i])
  }

  /** Every tree that renders as something renders as a primary: followed by anything that does not
      prolong a fragment, its text is read back as its tree if the tree is clean and is a syntax
      error if it is not. */
  lemma {:induction false} ReadsBack(k: nat, c: Cond, rest: seq<Token>)
    requires !Vacuous(c) && !StartsFragment(rest)
    ensures ParsePrimary(CondText(Numbered, k, c) + rest) == if Clean(c) then Got(Tree(k, c), rest) else Fail
    decreases c, 2
  {
    hide ParsePrimary;
    hide Tree;
    match c
    case Leaf(col, o, v) => LeafReadsBack(k, col, o, v, rest);
    case Group(or, cs) => GroupReadsBack(k, or, cs, rest);
    case Raw(sql, args) => RawReadsBack(k, sql, args, rest);
    case Exists(negate, src, on, inner) => ExistsReadsBack(k, negate, src, on, inner, rest);
    case FullText(col, config, query) => MatchReadsBack(k, col, config, query, rest);
  }

  lemma MatchReadsBack(k: nat, col: string, config: string, query: string, rest: seq<Token>)
    ensures ParsePrimary(CondText(Numbered, k, FullText(col, config, query)) + rest) ==
      Got(Tree(k, FullText(col, config, query)), rest)
  {
    var head := [MatchOpen(col, config), Slot(k + 1), MatchClose];
    var ts := head + rest;
    assert ts[0] == head[0] && ts[1] == head[1] && ts[2] == head[2];
    assert ts[3..] == rest;
  }

  lemma RawReadsBack(k: nat, sql: string, args: seq<Value>, rest: seq<Token>)
    requires !Vacuous(Raw(sql, args)) && !StartsFragment(rest)
    ensures ParsePrimary(CondText(Numbered, k, Raw(sql, args)) + rest) == Got(Tree(k, Raw(sql, args)), rest)
  {
    hide ParsePrimary;
    hide RawText;
    var pieces := Text.Split(sql, '?');
    BlankIffVacuous(Numbered, k, Raw(sql, args));
    RawIsFragment(k, pieces, args);
    VerbatimReadsBack(RawText(Numbered, k, pieces, args), rest);
  }

  lemma VerbatimReadsBack(text: seq<Token>, rest: seq<Token>)
    requires text != [] && !StartsFragment(rest)
    requires forall t :: t in text ==> InFragment(t)
    ensures ParsePrimary(text + rest) == Got(Verbatim(text), rest)
  {
    var ts := text + rest;
    FragmentRun(text, rest);
    assert ts[0] == text[0] && text[0] in text;
    assert ts[..|text|] == text && ts[|text|..] == rest;
  }

  lemma {:induction false} GroupReadsBack(k: nat, or: bool, cs: seq<Cond>, rest: seq<Token>)
    requires !Vacuous(Group(or, cs)) && !StartsFragment(rest)
    ensures ParsePrimary(CondText(Numbered, k, Group(or, cs)) + rest) ==
      if Clean(Group(or, cs)) then Got(Tree(k, Group(or, cs)), rest) else Fail
    decreases cs, 4
  {
    hide ParsePrimary;
    hide ParseOr;
    if |cs| == 1 {
      ReadsBack(k, cs[0], rest);
      assert Clean(Group(or, cs)) <==> Clean(cs[0]);
    } else {
      var j, tail := JoinedText(Numbered, k, or, cs), [RParen] + rest;
      Assoc([LParen] + j, [RParen], rest);
      Assoc([LParen], j, tail);
      ParenReadsBack(j + tail);
      assert tail[0].RParen? && tail[1..] == rest;
      if or {
        OrReadsBack(k, cs, tail);
      } else {
        AndReadsBack(k, cs, tail);
      }
      assert Clean(Group(or, cs)) <==> AllFit(cs);
    }
  }

  lemma ParenReadsBack(inside: seq<Token>)
    ensures ParsePrimary([LParen] + inside) == ParseClosed(inside)
  {
    assert ([LParen] + inside)[0] == LParen && ([LParen] + inside)[1..] == inside;
  }

  /** The children of an AND group are collected by the AND list ... */
  lemma {:induction false} AndReadsBack(k: nat, cs: seq<Cond>, rest: seq<Token>)
    requires cs != [] && rest != [] && rest[0].RParen?
    ensures ParseAndList(JoinedText(Numbered, k, false, cs) + rest) ==
      if AllFit(cs) then Got(Trees(k, cs), rest) else Fail
    ensures |cs| > 1 ==>
      ParseOr(JoinedText(Numbered, k, false, cs) + rest) == if AllFit(cs) then Got(Conj(Trees(k, cs)), rest) else Fail
    decreases cs, 3
  {
    var ts := JoinedText(Numbered, k, false, cs) + rest;
    var next := k + |CondArgs(cs[0])|;
    var after := if |cs| == 1 then rest else [AndWord] + (JoinedText(Numbered, next, false, cs[1..]) + rest);
    assert ts == CondText(Numbered, k, cs[0]) + after;
    FirstChild(k, cs[0], after);
    FitSplit(cs);
    if |cs| == 1 {
      assert Trees(next, cs[1..]) == [];
      assert Trees(k, cs) == [Tree(k, cs[0])];
    } else {
      assert after[1..] == JoinedText(Numbered, next, false, cs[1..]) + rest;
      AndReadsBack(next, cs[1..], rest);
    }
    OrFromAnd(ts);
  }

  /** A single AND list, not followed by OR, is the whole expression. */
  lemma OrFromAnd(ts: seq<Token>)
    ensures ParseAndList(ts).Fail? ==> ParseOr(ts) == Fail
    ensures
      var p := ParseAndList(ts);
      p.Got? && (p.rest == [] || !p.rest[0].OrWord?) ==>
        ParseOr(ts) == Got(if |p.value| == 1 then p.value[0] else Conj(p.value), p.rest)
  {
    var p := ParseAndList(ts);
    if p.Got? {
      assert ParseAnd(ts) == Got(if |p.value| == 1 then p.value[0] else Conj(p.value), p.rest);
    } else {
      assert ParseAnd(ts) == Fail;
      assert ParseOrList(ts) == Fail;
    }
  }

  /** ... and those of an OR group by the OR list, each a conjunction of one. */
  lemma {:induction false} OrReadsBack(k: nat, cs: seq<Cond>, rest: seq<Token>)
    requires cs != [] && rest != [] && rest[0].RParen?
    ensures ParseOrList(JoinedText(Numbered, k, true, cs) + rest) ==
      if AllFit(cs) then Got(Trees(k, cs), rest) else Fail
    ensures |cs| > 1 ==>
      ParseOr(JoinedText(Numbered, k, true, cs) + rest) == if AllFit(cs) then Got(Disj(Trees(k, cs)), rest) else Fail
    decreases cs, 3
  {
    var ts := JoinedText(Numbered, k, true, cs) + rest;
    var next := k + |CondArgs(cs[0])|;
    var after := if |cs| == 1 then rest else [OrWord] + (JoinedText(Numbered, next, true, cs[1..]) + rest);
    assert ts == CondText(Numbered, k, cs[0]) + after;
    FirstChild(k, cs[0], after);
    FitSplit(cs);
    if AllFit(cs[..1]) {
      assert ParseAndList(ts) == Got([Tree(k, cs[0])], after);
      assert ParseAnd(ts) == Got(Tree(k, cs[0]), after);
    } else {
      assert ParseAnd(ts) == Fail;
    }
    if |cs| == 1 {
      assert Trees(next, cs[1..]) == [];
      assert Trees(k, cs) == [Tree(k, cs[0])];
    } else {
      assert after[1..] == JoinedText(Numbered, next, true, cs[1..]) + rest;
      OrReadsBack(next, cs[1..], rest);
    }
  }

  /** A child before a connective or a closing parenthesis. */
  lemma {:induction false} FirstChild(k: nat, c: Cond, after: seq<Token>)
    requires after != [] && (after[0].RParen? || after[0].AndWord? || after[0].OrWord?)
    ensures ParsePrimary(CondText(Numbered, k, c) + after) ==
      if Clean(c) && !Vacuous(c) then Got(Tree(k, c), after) else Fail
    decreases c, 3
  {
    if Vacuous(c) {
      BlankIffVacuous(Numbered, k, c);
      assert CondText(Numbered, k, c) + after == after;
    } else {
      ReadsBack(k, c, after);
    }
  }

  lemma FitSplit(cs: seq<Cond>)
    requires cs != []
    ensures AllFit(cs) <==> (Clean(cs[0]) && !Vacuous(cs[0]) && AllFit(cs[1..]))
    ensures AllFit(cs[..1]) <==> (Clean(cs[0]) && !Vacuous(cs[0]))
  {
    assert forall i :: 0 < i < |cs| ==> cs[i] == cs[1..][i - 1];
    assert cs[..1][0] == cs[0];
  }

  lemma {:induction false} ExistsReadsBack(k: nat, negate: bool, src: string, on: string, inner: Option<Cond>,
      rest: seq<Token>)
    requires !StartsFragment(rest)
    ensures var c := Exists(negate, src, on, inner);
      ParsePrimary(CondText(Numbered, k, c) + rest) == if Clean(c) then Got(Tree(k, c), rest) else Fail
    decreases inner, 5
  {
    hide ParsePrimary;
    hide ParseOr;
    hide ExistsHead;
    hide SubqueryHead;
    var c := Exists(negate, src, on, inner);
    var tail := [RParen] + rest;
    var body := SubqueryBody(k, on, inner) + tail;
    var ts := SubqueryHead(src) + body;
    assert tail[0].RParen? && tail[1..] == rest;
    SubqueryReadsBack(k, on, inner, tail);
    assert ParseClosed(body) == if Clean(c) then Got(SubqueryTree(k, on, inner), rest) else Fail;
    HeadReadsBack(src, body);
    var inside := if inner.None? then [] else [AndWord] + CondText(Numbered, k, inner.value);
    Assoc([OnText(on)], inside, tail);
    assert CondText(Numbered, k, c) == ExistsHead(negate, src, on) + inside + [RParen];
    Assoc(ExistsHead(negate, src, on) + inside, [RParen], rest);
    Assoc(ExistsHead(negate, src, on), inside, tail);
    HeadSplits(negate, src, on);
    Assoc(SubqueryHead(src), [OnText(on)], inside + tail);
    if negate {
      NotReadsBack(ts);
      Assoc([NotWord], SubqueryHead(src) + [OnText(on)], inside + tail);
    }
  }

  ghost function SubqueryHead(src: string): seq<Token> {
    [ExistsWord, LParen, SelectOne, FromWord, Source(src), WhereWord]
  }

  lemma HeadSplits(negate: bool, src: string, on: string)
    ensures ExistsHead(negate, src, on) ==
      if negate then [NotWord] + (SubqueryHead(src) + [OnText(on)]) else SubqueryHead(src) + [OnText(on)]
  {
  }

  lemma HeadReadsBack(src: string, body: seq<Token>)
    ensures ParsePrimary(SubqueryHead(src) + body) ==
      match ParseClosed(body)
      case Fail => Fail
      case Got(x, rest) => Got(ExistsRow(src, x), rest)
  {
    var ts := SubqueryHead(src) + body;
    assert ts[0] == ExistsWord && ts[1] == LParen && ts[2] == SelectOne;
    assert ts[3] == FromWord && ts[4] == Source(src) && ts[5] == WhereWord;
    assert IsSubqueryHead(ts) && ts[6..] == body;
  }

  lemma NotReadsBack(ts: seq<Token>)
    ensures ParsePrimary([NotWord] + ts) ==
      match ParsePrimary(ts)
      case Fail => Fail
      case Got(x, rest) => Got(Not(x), rest)
  {
    assert ([NotWord] + ts)[0] == NotWord && ([NotWord] + ts)[1..] == ts;
  }

  ghost function SubqueryBody(k: nat, on: string, inner: Option<Cond>): seq<Token> {
    [OnText(on)] + if inner.None? then [] else [AndWord] + CondText(Numbered, k, inner.value)
  }

  ghost function SubqueryTree(k: nat, on: string, inner: Option<Cond>): Expr {
    if inner.None? then Correlation(on) else Conj([Correlation(on), Tree(k, inner.value)])
  }

  /** The correlation AND the inner condition, which never needs parentheses of its own. */
  lemma {:induction false} SubqueryReadsBack(k: nat, on: string, inner: Option<Cond>, tail: seq<Token>)
    requires tail != [] && tail[0].RParen?
    ensures ParseOr(SubqueryBody(k, on, inner) + tail) ==
      if inner.None? || (Clean(inner.value) && !Vacuous(inner.value)) then Got(SubqueryTree(k, on, inner), tail)
      else Fail
    decreases inner, 4
  {
    var body := SubqueryBody(k, on, inner) + tail;
    assert ParsePrimary(body) == Got(Correlation(on), body[1..]);
    if inner.None? {
      assert body[1..] == tail;
    } else {
      var inside := CondText(Numbered, k, inner.value) + tail;
      assert body[1..] == [AndWord] + inside;
      assert body[1..][1..] == inside;
      FirstChild(k, inner.value, tail);
      if Clean(inner.value) && !Vacuous(inner.value) {
        assert ParseAndList(inside) == Got([Tree(k, inner.value)], tail);
        assert [Correlation(on)] + [Tree(k, inner.value)] == [Correlation(on), Tree(k, inner.value)];
      } else {
        assert ParseAndList(inside) == Fail;
      }
    }
    OrFromAnd(body);
  }

  lemma LeafReadsBack(k: nat, col: string, o: Op, v: Value, rest: seq<Token>)
    requires !StartsFragment(rest)
    ensures ParsePrimary(CondText(Numbered, k, Leaf(col, o, v)) + rest) == Got(Tree(k, Leaf(col, o, v)), rest)
  {
    hide ParsePrimary;
    if IsList(o) {
      if EmptySlice(v) {
        VerbatimReadsBack([Fragment(if o == OpIn then "1=0" else "1=1")], rest);
      } else {
        ListReadsBack(k, col, o, |Elements(v)|, rest);
      }
    } else {
      ComparisonReadsBack(k, col, o, rest);
    }
  }

  lemma ComparisonReadsBack(k: nat, col: string, o: Op, rest: seq<Token>)
    requires !IsList(o)
    ensures IsTest(o) ==> ParsePrimary([Ident(col), Oper(o)] + rest) == Got(Test(col, o), rest)
    ensures !IsTest(o) ==> (
        ParsePrimary([Ident(col), Oper(o), Slot(k + 1)] + rest) == Got(Comparison(col, o, k + 1), rest))
  {
    var text := if IsTest(o) then [Ident(col), Oper(o)] else [Ident(col), Oper(o), Slot(k + 1)];
    var ts := text + rest;
    assert ts[0] == text[0] && ts[1] == text[1] && ts[|text|..] == rest;
    assert !IsTest(o) ==> ts[2] == text[2];
    assert ParsePrimary(ts) == ParseComparison(ts);
  }

  lemma ListReadsBack(k: nat, col: string, o: Op, n: nat, rest: seq<Token>)
    requires IsList(o) && n > 0
    ensures ParsePrimary([Ident(col), Oper(o), LParen] + ListText(Numbered, k, n) + [RParen] + rest) ==
      Got(InList(col, o, Consecutive(k, n)), rest)
  {
    var list, tail := ListText(Numbered, k, n), [RParen] + rest;
    var ts := [Ident(col), Oper(o), LParen] + (list + tail);
    Assoc([Ident(col), Oper(o), LParen], list, [RParen]);
    Assoc([Ident(col), Oper(o), LParen], list + [RParen], rest);
    Assoc(list, [RParen], rest);
    assert ts[0] == Ident(col) && ts[1] == Oper(o) && ts[2] == LParen;
    assert ts[3..] == list + tail;
    assert tail[1..] == rest;
    SlotsReadBack(k, n, tail);
    assert ParseComparison(ts) == Got(InList(col, o, Consecutive(k, n)), rest);
  }

  lemma {:induction false} SlotsReadBack(k: nat, n: nat, rest: seq<Token>)
    requires n > 0 && rest != [] && rest[0].RParen?
    ensures ParseSlots(ListText(Numbered, k, n) + rest) == Got(Consecutive(k, n), rest)
    decreases n
  {
    var ts := ListText(Numbered, k, n) + rest;
    assert ts[0] == Slot(k + 1);
    if n == 1 {
      assert ts[1..] == rest;
      assert Consecutive(k + 1, 0) == [];
      assert Consecutive(k, 1) == [k + 1];
    } else {
      assert ts[2..] == ListText(Numbered, k + 1, n - 1) + rest;
      SlotsReadBack(k + 1, n - 1, rest);
    }
  }

  lemma {:induction false} RawIsFragment(k: nat, pieces: seq<string>, args: seq<Value>)
    ensures forall t :: t in RawText(Numbered, k, pieces, args) ==> InFragment(t)
    decreases pieces
  {
    if pieces != [] {
      if |pieces| > 1 && args != [] {
        RawIsFragment(k + 1, pieces[1..], args[1..]);
      } else {
        RawIsFragment(k, pieces[1..], args);
      }
    }
  }

  lemma {:induction false} FragmentRun(ts: seq<Token>, rest: seq<Token>)
    requires forall t :: t in ts ==> InFragment(t)
    requires !StartsFragment(rest)
    ensures FragmentLength(ts + rest) == |ts|
  {
    if ts == [] {
      assert ts + rest == rest;
    } else {
      assert ts[0] in ts;
      assert (ts + rest)[1..] == ts[1..] + rest;
      FragmentRun(ts[1..], rest);
    }
  }

  // ---------------------------------------------------------------- the tree means the condition

  /** `args` holds the arguments of `c` from position k+1 on. */
  predicate Bound(args: seq<Value>, k: nat, own: seq<Value>) {
    k + |own| <= |args| && args[k..k + |own|] == own
  }

  lemma BoundSplit(args: seq<Value>, k: nat, a: seq<Value>, b: seq<Value>)
    requires Bound(args, k, a + b)
    ensures Bound(args, k, a) && Bound(args, k + |a|, b)
  {
    var own := args[k..k + |a + b|];
    assert args[k..k + |a|] == own[..|a|] == a;
    assert args[k + |a|..k + |a| + |b|] == own[|a|..] == b;
  }

  lemma {:induction false} TreeMeans(e: Env, args: seq<Value>, k: nat, c: Cond, r: Row)
    requires Bound(args, k, CondArgs(c)) && !Vacuous(c) && Clean(c)
    ensures Meaning(e, args, Tree(k, c), r) == Eval(e, c, r)
    decreases c, 1
  {
    hide Meaning;
    hide Eval;
    hide Tree;
    match c
    case Leaf(col, o, v) => LeafMeans(e, args, k, col, o, v, r);
    case Group(or, cs) => GroupMeans(e, args, k, or, cs, r);
    case Raw(sql, values) => RawMeans(e, args, k, sql, values, r);
    case Exists(negate, src, on, inner) => ExistsMeans(e, args, k, negate, src, on, inner, r);
    case FullText(col, config, query) => MatchMeans(e, args, k, col, config, query, r);
  }

  lemma MatchMeans(e: Env, args: seq<Value>, k: nat, col: string, config: string, query: string, r: Row)
    requires Bound(args, k, [Str(query)])
    ensures Meaning(e, args, Tree(k, FullText(col, config, query)), r) == Eval(e, FullText(col, config, query), r)
  {
    assert args[k..k + 1][0] == args[k];
  }

  lemma {:induction false} GroupMeans(e: Env, args: seq<Value>, k: nat, or: bool, cs: seq<Cond>, r: Row)
    requires Bound(args, k, GroupArgs(cs)) && !Vacuous(Group(or, cs)) && Clean(Group(or, cs))
    ensures Meaning(e, args, Tree(k, Group(or, cs)), r) == Eval(e, Group(or, cs), r)
    decreases cs, 1
  {
    if |cs| == 1 {
      hide Meaning;
      hide Eval;
      SingleChild(e, or, cs[0], r);
      assert cs == [cs[0]];
      TreeMeans(e, args, k, cs[0], r);
    } else {
      hide AllMeaning;
      hide AnyMeaning;
      hide AllOf;
      hide AnyOf;
      hide Trees;
      hide Bound;
      assert AllFit(cs);
      TreesMean(e, args, k, cs, r);
    }
  }

  lemma RawMeans(e: Env, args: seq<Value>, k: nat, sql: string, values: seq<Value>, r: Row)
    requires Bound(args, k, CondArgs(Raw(sql, values)))
    ensures Meaning(e, args, Tree(k, Raw(sql, values)), r) == Eval(e, Raw(sql, values), r)
  {
    PartsMean(args, k, Text.Split(sql, '?'), values);
  }

  lemma PairMeans(e: Env, args: seq<Value>, es: seq<Expr>, r: Row)
    requires |es| == 2
    ensures AllMeaning(e, args, es, r) == And3(Meaning(e, args, es[0], r), Meaning(e, args, es[1], r))
  {
    assert es[1..][0] == es[1];
    assert es[1..][1..] == [];
    assert AllMeaning(e, args, es[1..], r) == And3(Meaning(e, args, es[1], r), True);
  }

  lemma {:induction false} ExistsMeans(e: Env, args: seq<Value>, k: nat, negate: bool, src: string, on: string,
      inner: Option<Cond>, r: Row)
    requires inner.Some? ==> Bound(args, k, CondArgs(inner.value)) && !Vacuous(inner.value) && Clean(inner.value)
    ensures var c := Exists(negate, src, on, inner);
      Meaning(e, args, Tree(k, c), r) == Eval(e, c, r)
    decreases inner, 2
  {
    forall child: Row
      ensures Meaning(e, args, SubqueryTree(k, on, inner), child) ==
        And3(e.on(on, child), if inner.None? then True else Eval(e, inner.value, child))
    {
      hide Eval;
      hide Tree;
      if inner.Some? {
        TreeMeans(e, args, k, inner.value, child);
        PairMeans(e, args, [Correlation(on), Tree(k, inner.value)], child);
      }
    }
    SubqueryMeans(e, args, k, negate, src, on, inner, r);
  }

  lemma ExistsTree(k: nat, negate: bool, src: string, on: string, inner: Option<Cond>)
    ensures var x := ExistsRow(src, SubqueryTree(k, on, inner));
      Tree(k, Exists(negate, src, on, inner)) == if negate then Not(x) else x
  {
  }

  lemma SubqueryMeans(e: Env, args: seq<Value>, k: nat, negate: bool, src: string, on: string, inner: Option<Cond>,
      r: Row)
    requires forall child: Row ::
      Meaning(e, args, SubqueryTree(k, on, inner), child) ==
      And3(e.on(on, child), if inner.None? then True else Eval(e, inner.value, child))
    ensures var c := Exists(negate, src, on, inner);
      Meaning(e, args, Tree(k, c), r) == Eval(e, c, r)
  {
    hide Tree;
    hide SubqueryTree;
    hide Meaning;
    hide Eval;
    ExistsTree(k, negate, src, on, inner);
    var body := SubqueryTree(k, on, inner);
    RowFoundMeans(e, args, src, body, r);
    EvalExists(e, negate, src, on, inner, r);
    if RowFound(e, args, src, body, r) {
      var i :| 0 <= i < |e.source(src)| && Meaning(e, args, body, r + e.source(src)[i]) == True;
      assert ChildHolds(e, on, inner, r + e.source(src)[i]);
    }
    if ChildFound(e, src, on, inner, r) {
      var i :| 0 <= i < |e.source(src)| && ChildHolds(e, on, inner, r + e.source(src)[i]);
      assert Meaning(e, args, body, r + e.source(src)[i]) == True;
    }
  }

  predicate RowFound(e: Env, args: seq<Value>, src: string, body: Expr, r: Row) {
    exists i :: 0 <= i < |e.source(src)| && Meaning(e, args, body, r + e.source(src)[i]) == True
  }

  predicate ChildHolds(e: Env, on: string, inner: Option<Cond>, child: Row) {
    And3(e.on(on, child), if inner.None? then True else Eval(e, inner.value, child)) == True
  }

  predicate ChildFound(e: Env, src: string, on: string, inner: Option<Cond>, r: Row) {
    exists i :: 0 <= i < |e.source(src)| && ChildHolds(e, on, inner, r + e.source(src)[i])
  }

  lemma RowFoundMeans(e: Env, args: seq<Value>, src: string, body: Expr, r: Row)
    ensures Meaning(e, args, ExistsRow(src, body), r) == FromBool(RowFound(e, args, src, body, r))
    ensures Meaning(e, args, Not(ExistsRow(src, body)), r) == FromBool(!RowFound(e, args, src, body, r))
  {
  }

  lemma EvalExists(e: Env, negate: bool, src: string, on: string, inner: Option<Cond>, r: Row)
    ensures Eval(e, Exists(negate, src, on, inner), r) ==
      FromBool(if negate then !ChildFound(e, src, on, inner, r) else ChildFound(e, src, on, inner, r))
  {
    var found := exists i :: (
        && 0 <= i < |e.source(src)|
        && And3(e.on(on, r + e.source(src)[i]),
                if inner.None? then True else Eval(e, inner.value, r + e.source(src)[i])) == True);
    if ChildFound(e, src, on, inner, r) {
      var i :| 0 <= i < |e.source(src)| && ChildHolds(e, on, inner, r + e.source(src)[i]);
      assert found;
    }
    if found {
      var i :| 0 <= i < |e.source(src)| && And3(e.on(on, r + e.source(src)[i]),
                if inner.None? then True else Eval(e, inner.value, r + e.source(src)[i])) == True;
      assert ChildHolds(e, on, inner, r + e.source(src)[i]);
    }
  }

  lemma {:induction false} TreesMean(e: Env, args: seq<Value>, k: nat, cs: seq<Cond>, r: Row)
    requires Bound(args, k, GroupArgs(cs)) && AllFit(cs)
    ensures AllMeaning(e, args, Trees(k, cs), r) == AllOf(e, cs, r)
    ensures AnyMeaning(e, args, Trees(k, cs), r) == AnyOf(e, cs, r)
    decreases cs, 0
  {
    hide Meaning;
    hide Eval;
    hide Tree;
    hide CondArgs;
    hide Bound;
    hide AllFit;
    hide Clean;
    hide Vacuous;
    if cs != [] {
      BoundSplit(args, k, CondArgs(cs[0]), GroupArgs(cs[1..]));
      FitSplit(cs);
      TreeMeans(e, args, k, cs[0], r);
      TreesMean(e, args, k + |CondArgs(cs[0])|, cs[1..], r);
    }
  }

  lemma LeafMeans(e: Env, args: seq<Value>, k: nat, col: string, o: Op, v: Value, r: Row)
    requires Bound(args, k, CondArgs(Leaf(col, o, v)))
    ensures Meaning(e, args, Tree(k, Leaf(col, o, v)), r) == Eval(e, Leaf(col, o, v), r)
  {
    if IsList(o) {
      if EmptySlice(v) {
        var items := [Fragment(if o == OpIn then "1=0" else "1=1")];
        assert items[1..] == [];
        assert BoundParts(args, items) == [PText(if o == OpIn then "1=0" else "1=1")];
      } else {
        SlotsMean(args, k, Elements(v));
      }
    } else if !IsTest(o) {
      assert args[k..k + 1][0] == args[k];
    }
  }

  lemma {:induction false} SlotsMean(args: seq<Value>, k: nat, vs: seq<Value>)
    requires Bound(args, k, vs)
    ensures SlotValues(args, Consecutive(k, |vs|)) == vs
    decreases vs
  {
    if vs != [] {
      assert vs == [vs[0]] + vs[1..];
      BoundSplit(args, k, [vs[0]], vs[1..]);
      SlotsMean(args, k + 1, vs[1..]);
      assert args[k..k + 1][0] == args[k];
    }
  }

  lemma {:induction false} PartsMean(args: seq<Value>, k: nat, pieces: seq<string>, values: seq<Value>)
    requires Bound(args, k, RawArgs(pieces, values))
    ensures BoundParts(args, RawText(Numbered, k, pieces, values)) == Parts(pieces, values)
    decreases pieces
  {
    hide BoundParts;
    if pieces == [] {
      NoParts(args);
    } else {
      var head := if pieces[0] != "" then [Fragment(pieces[0])] else [];
      PieceMeans(args, pieces[0]);
      if |pieces| > 1 && values != [] {
        BoundSplit(args, k, [values[0]], RawArgs(pieces[1..], values[1..]));
        PartsMean(args, k + 1, pieces[1..], values[1..]);
        var rest := RawText(Numbered, k + 1, pieces[1..], values[1..]);
        PartsConcat(args, head, [Slot(k + 1)] + rest);
        PartsConcat(args, [Slot(k + 1)], rest);
        SlotMeans(args, k, values[0]);
      } else {
        PartsMean(args, k, pieces[1..], values);
        PartsConcat(args, head, RawText(Numbered, k, pieces[1..], values));
      }
    }
  }

  lemma NoParts(args: seq<Value>)
    ensures BoundParts(args, []) == []
  {
  }

  lemma PieceMeans(args: seq<Value>, piece: string)
    ensures BoundParts(args, if piece != "" then [Fragment(piece)] else []) ==
      if piece != "" then [PText(piece)] else []
  {
    assert [Fragment(piece)][1..] == [];
  }

  lemma SlotMeans(args: seq<Value>, k: nat, v: Value)
    requires Bound(args, k, [v])
    ensures BoundParts(args, [Slot(k + 1)]) == [PValue(v)]
  {
    assert args[k..k + 1][0] == args[k];
    assert [Slot(k + 1)][1..] == [];
  }

  lemma {:induction false} PartsConcat(args: seq<Value>, a: seq<Token>, b: seq<Token>)
    ensures BoundParts(args, a + b) == BoundParts(args, a) + BoundParts(args, b)
  {
    if a == [] {
      assert a + b == b;
    } else {
      assert (a + b)[1..] == a[1..] + b;
      PartsConcat(args, a[1..], b);
    }
  }

  // ---------------------------------------------------------------- the theorem on whole WHERE texts

  /** A WHERE or HAVING text, read to its end. */
  function ParseAll(ts: seq<Token>): Option<Expr> {
    match ParseOr(ts)
    case Fail => None
    case Got(x, rest) => if rest == [] then Some(x) else None
  }

  /** The expression of a clause; a condition that renders as nothing makes none. */
  function WhereTree(k: nat, c: Option<Cond>): Option<Expr> {
    if c.None? || Vacuous(c.value) then None else Some(Tree(k, c.value))
  }

  lemma WhereReadsBack(k: nat, c: Cond, rest: seq<Token>)
    requires !Vacuous(c) && !StartsFragment(rest)
    requires rest == [] || (!rest[0].AndWord? && !rest[0].OrWord?)
    ensures ParseOr(CondText(Numbered, k, c) + rest) == if Clean(c) then Got(Tree(k, c), rest) else Fail
  {
    var ts := CondText(Numbered, k, c) + rest;
    ReadsBack(k, c, rest);
    OrFromAnd(ts);
  }

  /** What the driver hands over for a built condition reads back, on every dialect, if and only if
      the tree is clean. */
  lemma TextReadsAsTree(m: Marker, c: Cond)
    requires !Vacuous(c)
    ensures ParseAll(Driver(m, CondText(m, 0, c))) == if Clean(c) then Some(Tree(0, c)) else None
  {
    CondRenders(m, 0, c);
    WhereReadsBack(0, c, []);
    assert CondText(Numbered, 0, c) + [] == CondText(Numbered, 0, c);
  }

  /** Text and arguments of a clean tree mean, on every row, what the tree means. */
  lemma TextMeansTree(e: Env, m: Marker, c: Cond, r: Row)
    requires Clean(c) && !Vacuous(c)
    ensures ParseAll(Driver(m, CondText(m, 0, c))).Some?
    ensures Meaning(e, CondArgs(c), ParseAll(Driver(m, CondText(m, 0, c))).value, r) == Eval(e, c, r)
  {
    TextReadsAsTree(m, c);
    TreeMeans(e, CondArgs(c), 0, c, r);
  }

  /** An empty group inside a larger one leaves a dangling connective. */
  lemma EmptyGroupBreaksText(c: Cond)
    ensures ParseAll(CondText(Numbered, 0, And([Some(And([])), Some(c)]))) == None
  {
    var empty := And([]);
    var g := And([Some(empty), Some(c)]);
    assert [Some(empty), Some(c)][1..] == [Some(c)];
    assert [Some(c)][1..] == [];
    assert Present([Some(empty), Some(c)]) == [empty, c];
    assert Vacuous(g.conds[0]);
    TextReadsAsTree(Numbered, g);
  }
}
