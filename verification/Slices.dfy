/** Go slices: a backing array and a length, appended to, truncated and reversed in place. */
module Slices {

  /** The elements in the opposite order. */
  function Flipped<T>(s: seq<T>): (r: seq<T>)
    ensures |r| == |s|
    ensures forall i :: 0 <= i < |s| ==> r[i] == s[|s| - 1 - i]
  {
    if s == [] then [] else Flipped(s[1..]) + [s[0]]
  }

  class Slice<T(0)> {
    var data: array<T>
    var len: nat

    ghost predicate Valid()
      reads this
    {
      len <= data.Length
    }

    function Contents(): (s: seq<T>)
      requires Valid()
      reads this, data
      ensures |s| == len
    {
      data[..len]
    }

    constructor ()
      ensures Valid() && fresh(data) && Contents() == []
    {
      data := new T[0];
      len := 0;
    }

    /** Appending writes into spare capacity, or moves to a larger array. */
    method Append(x: T)
      requires Valid()
      modifies this, data
      ensures Valid() && (data == old(data) || fresh(data))
      ensures Contents() == old(Contents()) + [x]
    {
      if len == data.Length {
        var bigger := new T[2 * len + 1];
        for i := 0 to len
          modifies bigger
          invariant bigger[..i] == data[..i]
        {
          bigger[i] := data[i];
        }
        data := bigger;
      }
      data[len] := x;
      len := len + 1;
    }

    method Truncate(n: nat)
      requires Valid() && n <= len
      modifies this`len
      ensures Valid() && Contents() == old(Contents())[..n]
    {
      len := n;
    }

    /** Reverses the elements from `start` on by swapping from both ends. */
    method ReverseFrom(start: nat)
      requires Valid() && start <= len
      modifies data
      ensures Contents() == old(Contents())[..start] + Flipped(old(Contents())[start..])
    {
      ghost var was := Contents();
      var i: int, j: int := start, len - 1;
      while i < j
        invariant start <= i <= j + 2 && i + j == start + len - 1
        invariant forall k :: 0 <= k < start ==> data[k] == was[k]
        invariant forall k :: i <= k <= j ==> data[k] == was[k]
        invariant forall k :: start <= k < i ==> data[k] == was[start + len - 1 - k]
        invariant forall k :: j < k < len ==> data[k] == was[start + len - 1 - k]
      {
        data[i], data[j] := data[j], data[i];
        i, j := i + 1, j - 1;
      }
      TailFlipped(was, Contents(), start);
    }
  }

  lemma TailFlipped<T>(was: seq<T>, now: seq<T>, start: nat)
    requires start <= |was| == |now|
    requires forall k :: 0 <= k < start ==> now[k] == was[k]
    requires forall k :: start <= k < |was| ==> now[k] == was[start + |was| - 1 - k]
    ensures now == was[..start] + Flipped(was[start..])
  {
    var tail := was[start..];
    forall k | start <= k < |was|
      ensures now[k] == Flipped(tail)[k - start]
    {
      assert Flipped(tail)[k - start] == tail[|tail| - 1 - (k - start)];
    }
  }
}
