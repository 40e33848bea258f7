/**
  Identifier quoting: what the quoted text of a name is, and that a lexer of quoted identifiers gets
  exactly the name back.
 */
module Quoting {
  import opened Dialects
  import opened Engines
  import opened Wrappers
  import Text

  function QuoteChar(d: Dialect): char {
    if d.MySQL? then '`' else '"'
  }

  // ---------------------------------------------------------------- one identifier

  /** Every quote character in the name is written twice. */
  function Doubled(s: string, q: char): string {
    if s == "" then "" else (if s[0] == q then [q, q] else [s[0]]) + Doubled(s[1..], q)
  }

  function Quoted(s: string, q: char): string {
    [q] + Doubled(s, q) + [q]
  }

  method Quote(s: string, q: char) returns (out: string)
    ensures out == Quoted(s, q)
  {
    out := [q];
    for i := 0 to |s|
      invariant out + Doubled(s[i..], q) == [q] + Doubled(s, q)
    {
      assert s[i..][1..] == s[i + 1..];
      if s[i] == q {
        out := out + [q];
      }
      out := out + [s[i]];
    }
    assert s[|s|..] == "";
    assert out == [q] + Doubled(s, q);
    out := out + [q];
  }

  /** Reading the inside of a quoted identifier: a doubled quote is one character, a single one ends it. */
  function LexInside(text: string, q: char): Option<(string, string)> {
    if text == "" then None
    else if text[0] != q then
      match LexInside(text[1..], q)
      case None => None
      case Some((name, rest)) => Some(([text[0]] + name, rest))
    else if |text| > 1 && text[1] == q then
      match LexInside(text[2..], q)
      case None => None
      case Some((name, rest)) => Some(([q] + name, rest))
    else Some(("", text[1..]))
  }

  function LexQuoted(text: string, q: char): Option<(string, string)> {
    if text == "" || text[0] != q then None else LexInside(text[1..], q)
  }

  ghost function Longer(s: string, found: Option<(string, string)>): Option<(string, string)> {
    if found.None? then None else Some((s + found.value.0, found.value.1))
  }

  lemma InsideStep(c: char, q: char, more: string)
    ensures LexInside((if c == q then [q, q] else [c]) + more, q) == Longer([c], LexInside(more, q))
  {
    var text := (if c == q then [q, q] else [c]) + more;
    assert if c == q then text[2..] == more else text[1..] == more;
  }

  lemma LongerTwice(c: char, s: string, found: Option<(string, string)>)
    ensures Longer([c], Longer(s, found)) == Longer([c] + s, found)
  {
    assert found.Some? ==> [c] + (s + found.value.0) == [c] + s + found.value.0;
  }

  lemma LongerByNothing(found: Option<(string, string)>)
    ensures Longer("", found) == found
  {
    assert found.Some? ==> "" + found.value.0 == found.value.0;
  }

  /** Reading past the doubled text of `s` yields `s`, whatever is behind it. */
  lemma {:induction false} InsideDoubled(s: string, q: char, rest: string)
    ensures LexInside(Doubled(s, q) + rest, q) == Longer(s, LexInside(rest, q))
  {
    hide LexInside;
    hide Longer;
    if s == "" {
      assert "" + rest == rest;
      LongerByNothing(LexInside(rest, q));
    } else {
      InsideDoubled(s[1..], q, rest);
      InsideStep(s[0], q, Doubled(s[1..], q) + rest);
      LongerTwice(s[0], s[1..], LexInside(rest, q));
      assert s == [s[0]] + s[1..];
      var head := if s[0] == q then [q, q] else [s[0]];
      assert Doubled(s, q) + rest == head + (Doubled(s[1..], q) + rest);
    }
  }

  /** A quoted name is read back exactly, unless the text behind it begins with another quote
      character: then the closing quote is taken for half of a pair. */
  lemma QuotedReadsBack(s: string, q: char, rest: string)
    ensures LexQuoted(Quoted(s, q) + rest, q) == Some((s, rest)) <==> rest == "" || rest[0] != q
  {
    var text := Quoted(s, q) + rest;
    assert text[1..] == Doubled(s, q) + ([q] + rest);
    InsideDoubled(s, q, [q] + rest);
    assert ([q] + rest)[1..] == rest;
    assert s + "" == s;
    if rest != "" && rest[0] == q {
      InsideShrinks(rest[1..], q);
      assert ([q] + rest)[2..] == rest[1..];
    }
  }

  lemma {:induction false} InsideShrinks(text: string, q: char)
    ensures LexInside(text, q).Some? ==> |LexInside(text, q).value.1| < |text|
  {
    if text != "" {
      if text[0] != q {
        InsideShrinks(text[1..], q);
      } else if |text| > 1 && text[1] == q {
        InsideShrinks(text[2..], q);
      }
    }
  }

  // ---------------------------------------------------------------- qualified names

  predicate Bare(part: string) {
    part == "" || part == "*"
  }

  function QuotedPart(part: string, q: char): string {
    if Bare(part) then part else Quoted(part, q)
  }

  function QuotedParts(parts: seq<string>, q: char): (r: seq<string>)
    ensures |r| == |parts| && forall i :: 0 <= i < |parts| ==> r[i] == QuotedPart(parts[i], q)
  {
    if parts == [] then [] else [QuotedPart(parts[0], q)] + QuotedParts(parts[1..], q)
  }

  function QuotedName(s: string, q: char): string {
    if '.' !in s then Quoted(s, q) else Text.Join(QuotedParts(Text.Split(s, '.'), q), '.')
  }

  /** Quotes the segments of a dotted name in place, leaving wildcards and empty segments alone. */
  method QuoteName(s: string, q: char) returns (out: string)
    ensures out == QuotedName(s, q)
  {
    hide Quoted;
    hide Text.Split;
    hide Text.Join;
    hide QuotedParts;
    if '.' !in s {
      out := Quote(s, q);
      return;
    }
    var segments := Text.Split(s, '.');
    var parts := new string[|segments|](i requires 0 <= i < |segments| => segments[i]);
    for i := 0 to parts.Length
      invariant forall j :: 0 <= j < i ==> parts[j] == QuotedPart(segments[j], q)
      invariant forall j :: i <= j < parts.Length ==> parts[j] == segments[j]
    {
      var p := parts[i];
      if p == "" || p == "*" {
        continue;
      }
      parts[i] := Quote(p, q);
    }
    assert parts[..] == QuotedParts(segments, q);
    out := Text.Join(parts[..], '.');
  }

  /** A segment of an identifier as SQL reads it. */
  datatype Segment = Segment(name: string, quoted: bool)

  function LexSegment(text: string, q: char): Option<(Segment, string)> {
    if text != "" && text[0] == q then
      match LexQuoted(text, q)
      case None => None
      case Some((name, rest)) => Some((Segment(name, true), rest))
    else if text != "" && text[0] == '*' then Some((Segment("*", false), text[1..]))
    else Some((Segment("", false), text))
  }

  lemma SegmentShrinks(text: string, q: char)
    ensures LexSegment(text, q).Some? ==> |LexSegment(text, q).value.1| <= |text|
  {
    if text != "" && text[0] == q {
      InsideShrinks(text[1..], q);
    }
  }

  /** A dotted identifier, and what follows it. */
  function LexName(text: string, q: char): Option<(seq<Segment>, string)>
    decreases |text|
  {
    match LexSegment(text, q)
    case None => None
    case Some((first, rest)) =>
      SegmentShrinks(text, q);
      if rest == "" || rest[0] != '.' then Some(([first], rest))
      else
        match LexName(rest[1..], q)
        case None => None
        case Some((more, after)) => Some(([first] + more, after))
  }

  function Segments(parts: seq<string>): (r: seq<Segment>)
    ensures |r| == |parts| && forall i :: 0 <= i < |parts| ==> r[i] == Segment(parts[i], !Bare(parts[i]))
  {
    if parts == [] then [] else [Segment(parts[0], !Bare(parts[0]))] + Segments(parts[1..])
  }

  predicate QuoteLike(q: char) {
    q != '.' && q != '*'
  }

  /** What may follow an identifier. */
  predicate Ends(rest: string, q: char) {
    rest == "" || (rest[0] != q && rest[0] != '.' && rest[0] != '*')
  }

  lemma PartReadsBack(part: string, q: char, rest: string)
    requires QuoteLike(q) && (Ends(rest, q) || (rest != "" && rest[0] == '.'))
    ensures LexSegment(QuotedPart(part, q) + rest, q) == Some((Segment(part, !Bare(part)), rest))
  {
    var text := QuotedPart(part, q) + rest;
    if part == "" {
      assert text == rest;
    } else if part == "*" {
      assert text[1..] == rest;
    } else {
      QuotedReadsBack(part, q, rest);
    }
  }

  lemma {:induction false} PartsReadBack(parts: seq<string>, q: char, rest: string)
    requires parts != [] && QuoteLike(q) && Ends(rest, q)
    ensures LexName(Text.Join(QuotedParts(parts, q), '.') + rest, q) == Some((Segments(parts), rest))
    decreases |parts|
  {
    hide QuotedPart;
    hide LexSegment;
    var first := QuotedPart(parts[0], q);
    if |parts| == 1 {
      OnePart(parts, q);
      PartReadsBack(parts[0], q, rest);
    } else {
      var tail := Text.Join(QuotedParts(parts[1..], q), '.') + rest;
      PartsReadBack(parts[1..], q, rest);
      MoreParts(parts, q, rest);
      hide Text.Join;
      hide QuotedParts;
      assert (['.'] + tail)[1..] == tail;
      PartReadsBack(parts[0], q, ['.'] + tail);
    }
  }

  lemma OnePart(parts: seq<string>, q: char)
    requires |parts| == 1
    ensures Text.Join(QuotedParts(parts, q), '.') == QuotedPart(parts[0], q)
    ensures Segments(parts) == [Segment(parts[0], !Bare(parts[0]))]
  {
    assert parts[1..] == [];
  }

  lemma MoreParts(parts: seq<string>, q: char, rest: string)
    requires |parts| > 1
    ensures Text.Join(QuotedParts(parts, q), '.') + rest ==
      QuotedPart(parts[0], q) + (['.'] + (Text.Join(QuotedParts(parts[1..], q), '.') + rest))
    ensures Segments(parts) == [Segment(parts[0], !Bare(parts[0]))] + Segments(parts[1..])
  {
    hide QuotedPart;
    var x, y := QuotedPart(parts[0], q), Text.Join(QuotedParts(parts[1..], q), '.');
    assert QuotedParts(parts, q)[1..] == QuotedParts(parts[1..], q);
    assert Text.Join(QuotedParts(parts, q), '.') == x + ['.'] + y;
    assert x + ['.'] + y + rest == x + (['.'] + (y + rest));
  }

  /** What the identifier of a name should be: its dot-separated segments, quoted unless they are empty
      or `*`; a name without a dot is one quoted segment even then. */
  function NameSegments(s: string): seq<Segment> {
    if '.' !in s then [Segment(s, true)] else Segments(Text.Split(s, '.'))
  }

  /** Quoting a name and reading it back gives its segments, and leaves the text behind untouched. */
  lemma NameReadsBack(s: string, q: char, rest: string)
    requires QuoteLike(q) && Ends(rest, q)
    ensures LexName(QuotedName(s, q) + rest, q) == Some((NameSegments(s), rest))
  {
    if '.' !in s {
      QuotedReadsBack(s, q, rest);
      var text := Quoted(s, q) + rest;
      assert LexSegment(text, q) == Some((Segment(s, true), rest));
    } else {
      PartsReadBack(Text.Split(s, '.'), q, rest);
    }
  }

  /** So every database reads the identifiers that its dialect writes. */
  lemma DialectReadsBack(d: Dialect, s: string, rest: string)
    requires Ends(rest, IdentifierQuote(d))
    ensures LexName(QuotedName(s, QuoteChar(d)) + rest, IdentifierQuote(d)) == Some((NameSegments(s), rest))
  {
    assert QuoteChar(d) == IdentifierQuote(d);
    NameReadsBack(s, QuoteChar(d), rest);
  }

  /** Different names never share a quoted form, on any dialect. */
  lemma QuotingInjective(d: Dialect, a: string, b: string)
    requires QuotedName(a, QuoteChar(d)) == QuotedName(b, QuoteChar(d))
    ensures a == b
  {
    var q := QuoteChar(d);
    NameReadsBack(a, q, "");
    NameReadsBack(b, q, "");
    assert QuotedName(a, q) + "" == QuotedName(a, q) && QuotedName(b, q) + "" == QuotedName(b, q);
    SameSegments(a, b);
  }

  lemma SameSegments(a: string, b: string)
    requires NameSegments(a) == NameSegments(b)
    ensures a == b
  {
    NamesJoin(a);
    NamesJoin(b);
  }

  /** The names of the segments, joined again. */
  function Names(segments: seq<Segment>): (names: seq<string>)
    ensures |names| == |segments| && forall i :: 0 <= i < |segments| ==> names[i] == segments[i].name
  {
    if segments == [] then [] else [segments[0].name] + Names(segments[1..])
  }

  lemma NamesJoin(s: string)
    ensures Text.Join(Names(NameSegments(s)), '.') == s
  {
    if '.' !in s {
      assert Names(NameSegments(s)) == [s];
    } else {
      assert Names(NameSegments(s)) == Text.Split(s, '.');
    }
  }
}
