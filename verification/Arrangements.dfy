/** Strictly increasing sequences under any order that never holds both ways. */
module Arrangements {

  ghost predicate Arranged<T(!new)>(less: (T, T) -> bool, s: seq<T>) {
    forall i, j :: 0 <= i < j < |s| ==> less(s[i], s[j])
  }

  ghost predicate Asymmetric<T(!new)>(less: (T, T) -> bool) {
    forall a, b :: less(a, b) ==> !less(b, a)
  }

  /** There is only one increasing arrangement of the same elements. */
  lemma {:induction false} Unique<T(!new)>(less: (T, T) -> bool, s: seq<T>, t: seq<T>)
    requires Asymmetric(less) && Arranged(less, s) && Arranged(less, t)
    requires forall x :: x in s <==> x in t
    ensures s == t
  {
    if s == [] || t == [] {
      if s != [] {
        HasMember(s);
      }
      if t != [] {
        HasMember(t);
      }
    } else {
      HeadLeast(less, s, t[0]);
      HeadLeast(less, t, s[0]);
      TailMembers(less, s);
      TailMembers(less, t);
      Unique(less, s[1..], t[1..]);
      assert s == [s[0]] + s[1..] && t == [t[0]] + t[1..];
    }
  }

  lemma HasMember<T>(s: seq<T>)
    requires s != []
    ensures s[0] in s
  {
  }

  lemma HeadLeast<T(!new)>(less: (T, T) -> bool, s: seq<T>, x: T)
    requires s != [] && Arranged(less, s) && x in s
    ensures x == s[0] || less(s[0], x)
  {
    var i :| 0 <= i < |s| && s[i] == x;
  }

  lemma TailMembers<T(!new)>(less: (T, T) -> bool, s: seq<T>)
    requires s != [] && Asymmetric(less) && Arranged(less, s)
    ensures forall x :: x in s[1..] <==> x in s && x != s[0]
    ensures Arranged(less, s[1..])
  {
    assert s == [s[0]] + s[1..];
    forall x | x in s[1..]
      ensures x != s[0]
    {
      var i :| 1 <= i < |s| && s[i] == x;
      assert less(s[0], s[i]);
    }
  }
}
