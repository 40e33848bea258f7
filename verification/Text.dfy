/** Strings: splitting and joining on a separator, and sorting. */
module Text {
  import Arrangements

  function Split(s: string, sep: char): (parts: seq<string>)
    ensures |parts| >= 1
    ensures forall i :: 0 <= i < |parts| ==> sep !in parts[i]
    ensures Join(parts, sep) == s
    ensures |parts| == 1 <==> sep !in s
  {
    if s == "" then [""]
    else
      var rest := Split(s[1..], sep);
      assert s == [s[0]] + s[1..];
      if s[0] == sep then [""] + rest
      else
        var parts := [[s[0]] + rest[0]] + rest[1..];
        assert parts[1..] == rest[1..];
        assert |rest| > 1 ==> (
            [s[0]] + (rest[0] + [sep] + Join(rest[1..], sep)) == [s[0]] + rest[0] + [sep] + Join(rest[1..], sep));
        parts
  }

  function Join(parts: seq<string>, sep: char): string {
    if parts == [] then ""
    else if |parts| == 1 then parts[0]
    else parts[0] + [sep] + Join(parts[1..], sep)
  }

  // ---------------------------------------------------------------- sorting strings

  /** The order of sort.Strings: by code points, which is also the order of UTF-8 bytes. */
  predicate LexBefore(a: string, b: string) {
    b != "" && (a == "" || a[0] < b[0] || (a[0] == b[0] && LexBefore(a[1..], b[1..])))
  }

  lemma {:induction false} LexTrichotomy(a: string, b: string)
    ensures LexBefore(a, b) || LexBefore(b, a) || a == b
    ensures !(LexBefore(a, b) && LexBefore(b, a))
    ensures a == b ==> !LexBefore(a, b)
  {
    if a != "" && b != "" {
      LexTrichotomy(a[1..], b[1..]);
      assert a == [a[0]] + a[1..] && b == [b[0]] + b[1..];
    }
  }

  lemma {:induction false} LexTransitive(a: string, b: string, c: string)
    requires LexBefore(a, b) && LexBefore(b, c)
    ensures LexBefore(a, c)
  {
    if a != "" && a[0] == b[0] == c[0] {
      LexTransitive(a[1..], b[1..], c[1..]);
    }
  }

  ghost predicate Increasing(s: seq<string>) {
    forall i, j :: 0 <= i < j < |s| ==> LexBefore(s[i], s[j])
  }

  ghost predicate Distinct(s: seq<string>) {
    forall i, j :: 0 <= i < j < |s| ==> s[i] != s[j]
  }

  function InsertString(x: string, s: seq<string>): (r: seq<string>)
    ensures |r| == |s| + 1
    ensures forall y :: y in r <==> y == x || y in s
  {
    if s == [] then [x]
    else if LexBefore(s[0], x) then
      assert s == [s[0]] + s[1..];
      [s[0]] + InsertString(x, s[1..])
    else [x] + s
  }

  function SortStrings(s: seq<string>): (r: seq<string>)
    ensures |r| == |s|
    ensures forall y :: y in r <==> y in s
  {
    if s == [] then []
    else
      assert s == [s[0]] + s[1..];
      InsertString(s[0], SortStrings(s[1..]))
  }

  lemma {:induction false} InsertIncreases(x: string, s: seq<string>)
    requires Increasing(s) && x !in s
    ensures Increasing(InsertString(x, s))
  {
    hide LexBefore;
    if s != [] {
      LexTrichotomy(s[0], x);
      if LexBefore(s[0], x) {
        InsertIncreases(x, s[1..]);
        var rest := InsertString(x, s[1..]);
        forall y | y in rest
          ensures LexBefore(s[0], y)
        {
          if y != x {
            var i :| 1 <= i < |s| && s[i] == y;
          }
        }
      } else {
        forall y | y in s
          ensures LexBefore(x, y)
        {
          var i :| 0 <= i < |s| && s[i] == y;
          if i > 0 {
            LexTransitive(x, s[0], y);
          }
        }
      }
    }
  }

  lemma {:induction false} SortIncreases(s: seq<string>)
    requires Distinct(s)
    ensures Increasing(SortStrings(s))
  {
    if s != [] {
      SortIncreases(s[1..]);
      InsertIncreases(s[0], SortStrings(s[1..]));
    }
  }

  /** Sorting distinct strings forgets the order they came in. */
  lemma SortForgetsOrder(s: seq<string>, t: seq<string>)
    requires Distinct(s) && Distinct(t) && forall x :: x in s <==> x in t
    ensures SortStrings(s) == SortStrings(t)
  {
    SortIncreases(s);
    SortIncreases(t);
    forall a, b
      ensures LexBefore(a, b) ==> !LexBefore(b, a)
    {
      LexTrichotomy(a, b);
    }
    Arrangements.Unique(LexBefore, SortStrings(s), SortStrings(t));
  }
}
