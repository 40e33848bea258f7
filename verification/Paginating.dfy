/**
  Offset pagination: resolving After, Before, First and Last into a window of rows, against the
  pagination algorithm of section 4.4 of the GraphQL Cursor Connections Specification restated over
  record offsets.
 */
module Paginating {
  import opened Queries
  import opened Wrappers

  // ---------------------------------------------------------------- the algorithm of the specification

  /** Record `i` lies between the two offsets, both exclusive. */
  predicate InRange(p: PagingParams, total: nat, i: nat) {
    i < total && (p.after.Some? ==> p.after.value < i) && (p.before.Some? ==> i < p.before.value)
  }

  /** How many of the records from `i` up to `j` are in range. */
  function CountInRange(p: PagingParams, total: nat, i: nat, j: nat): (n: nat)
    decreases j - i
  {
    if i >= j then 0 else (if InRange(p, total, i) then 1 else 0) + CountInRange(p, total, i + 1, j)
  }

  /** The records to return: those in range, of them the first First, and of them the last Last. */
  predicate Wanted(p: PagingParams, total: nat, i: nat) {
    && InRange(p, total, i)
    && (p.first.Some? ==> CountInRange(p, total, 0, i) < p.first.value)
    && (p.last.Some? ==> CountInRange(p, total, i + 1, total) < p.last.value)
  }

  // ---------------------------------------------------------------- the code

  /** The arguments make sense together: First and Last not both, and neither negative. */
  predicate Agreeable(p: PagingParams) {
    !(p.first.Some? && p.last.Some?) && (p.first.Some? ==> p.first.value >= 0) && (p.last.Some? ==> p.last.value >= 0)
  }

  /** Contradictory arguments: a programming error, answered by a panic. */
  predicate Contradictory(p: PagingParams) {
    (p.first.Some? && p.last.Some?) || (p.first.Some? && p.first.value < 0) || (p.last.Some? && p.last.value < 0)
  }

  /** The closure that Paginate returns: the two variables it captured. */
  datatype Paginator = Paginator(limit: int, offset: int) {
    function Apply(total: int): (int, int) {
      if limit < 0 then
        if total + limit > offset then (-limit, total + limit) else (-limit, offset)
      else (limit, offset)
    }
  }

  datatype Resolved = Nothing(needsTotal: bool) | Windowed(paginator: Paginator, needsTotal: bool)

  /** The first offset that After admits. */
  function Start(p: PagingParams): (n: nat) {
    if p.after.Some? && p.after.value >= 0 then p.after.value + 1 else 0
  }

  function Min(a: int, b: int): int {
    if a < b then a else b
  }

  /** No record can ever be wanted. */
  predicate Hopeless(p: PagingParams) {
    p.first == Some(0) || p.last == Some(0) || (p.before.Some? && p.before.value <= Start(p))
  }

  function WindowLimit(p: PagingParams): int {
    if p.before.Some? then
      var width := p.before.value - Start(p);
      if p.first.Some? then Min(p.first.value, width) else if p.last.Some? then Min(p.last.value, width) else width
    else if p.first.Some? then p.first.value
    else if p.last.Some? then -p.last.value
    else 0
  }

  function WindowOffset(p: PagingParams): int {
    if p.before.Some? && p.last.Some? && Start(p) == 0 && p.before.value > p.last.value then
      p.before.value - p.last.value
    else Start(p)
  }

  function ResolvePaging(p: PagingParams): Result<Resolved, Failure> {
    if Contradictory(p) then Err(PagingPanic)
    else if Hopeless(p) then Ok(Nothing(p.includeTotal))
    else Ok(Windowed(Paginator(WindowLimit(p), WindowOffset(p)), p.last.Some? && p.before.None?))
  }

  /** It panics exactly on arguments that do not make sense together. */
  method Paginate(p: PagingParams) returns (res: Result<Resolved, Failure>)
    ensures res == ResolvePaging(p)
    ensures if Agreeable(p) then res.Ok? else res == Err(PagingPanic)
  {
    var limit, offset := 0, 0;
    if p.first.Some? && p.last.Some? {
      return Err(PagingPanic);
    }
    if p.first.Some? {
      if p.first.value < 0 {
        return Err(PagingPanic);
      }
      if p.first.value == 0 {
        return Ok(Nothing(p.includeTotal));
      }
      limit := p.first.value;
    }
    if p.last.Some? {
      if p.last.value < 0 {
        return Err(PagingPanic);
      }
      if p.last.value == 0 {
        return Ok(Nothing(p.includeTotal));
      }
      limit := -p.last.value;
    }
    if p.after.Some? && p.after.value >= 0 {
      offset := p.after.value + 1;
    }
    if p.before.Some? {
      if p.before.value <= offset {
        return Ok(Nothing(p.includeTotal));
      }
      if limit < 0 {
        limit := -limit;
        if offset == 0 && p.before.value > limit {
          offset := p.before.value - limit;
        }
      }
      if limit == 0 || p.before.value - offset < limit {
        limit := p.before.value - offset;
      }
    }
    res := Ok(Windowed(Paginator(limit, offset), limit < 0));
  }

  // ---------------------------------------------------------------- what the window selects

  /** Record `i` is in the window that the statement's LIMIT and OFFSET cut; a limit of zero is none. */
  predicate InWindow(w: (int, int), total: nat, i: nat) {
    i < total && w.1 <= i && (w.0 > 0 ==> i < w.1 + w.0)
  }

  function End(p: PagingParams, total: nat): (n: nat) {
    if p.before.Some? && p.before.value < total then (if p.before.value < 0 then 0 else p.before.value) else total
  }

  /** The range is an interval, so counting in it is subtraction. */
  lemma {:induction false} CountIsDifference(p: PagingParams, total: nat, i: nat, j: nat)
    ensures CountInRange(p, total, i, j) ==
      var lo := if i < Start(p) then Start(p) else i;
      var hi := if j < End(p, total) then j else End(p, total);
      if lo < hi then hi - lo else 0
    decreases j - i
  {
    if i < j {
      CountIsDifference(p, total, i + 1, j);
    }
  }

  /** The wanted records as an interval. */
  lemma WantedMeans(p: PagingParams, total: nat, i: nat)
    requires Agreeable(p)
    ensures Wanted(p, total, i) <==>
      && Start(p) <= i < End(p, total)
      && (p.first.Some? ==> i < Start(p) + p.first.value)
      && (p.last.Some? ==> End(p, total) <= i + p.last.value)
  {
    CountIsDifference(p, total, 0, i);
    CountIsDifference(p, total, i + 1, total);
    hide CountInRange;
  }

  predicate Matches(p: PagingParams, pg: Paginator, total: nat, i: nat) {
    InWindow(pg.Apply(total), total, i) <==> Wanted(p, total, i)
  }

  /** The window holds exactly the wanted records. */
  ghost predicate Selects(p: PagingParams, pg: Paginator, total: nat) {
    forall i: nat :: Matches(p, pg, total, i)
  }

  /** When it does: always, unless Last and Before are combined and Before leaves more than Last
      records after the start; and then still, if the total happens to lie right. */
  predicate WindowExact(p: PagingParams, total: nat) {
    p.last.Some? && p.before.Some? && p.before.value - Start(p) > p.last.value ==>
      if Start(p) == 0 then p.before.value <= total || total == 0
      else total <= Start(p) + p.last.value
  }

  /** The window is the wanted range exactly under the stated condition. */
  lemma PaginateMeans(p: PagingParams, total: nat)
    requires Agreeable(p) && ResolvePaging(p).value.Windowed?
    ensures Selects(p, ResolvePaging(p).value.paginator, total) <==> WindowExact(p, total)
  {
    var pg := ResolvePaging(p).value.paginator;
    forall i: nat
      ensures WindowExact(p, total) ==> Matches(p, pg, total, i)
    {
      WantedMeans(p, total, i);
      hide Wanted;
    }
    if !WindowExact(p, total) {
      // The last record in range is wanted, and outside the window.
      var i := End(p, total) - 1;
      WantedMeans(p, total, i);
      hide Wanted;
      var j := if End(p, total) < p.last.value then 0 else End(p, total) - p.last.value;
      WantedMeans(p, total, j);
      assert !Matches(p, pg, total, i) || !Matches(p, pg, total, j);
    }
  }

  /** A caller who does not know the total is safe exactly when Last and Before are not combined, or
      Before leaves at most Last records after the start. */
  lemma SafeForEveryTotal(p: PagingParams)
    requires Agreeable(p) && ResolvePaging(p).value.Windowed?
    ensures (forall total: nat :: Selects(p, ResolvePaging(p).value.paginator, total)) <==>
      (p.last.Some? && p.before.Some? ==> p.before.value - Start(p) <= p.last.value)
  {
    hide Selects;
    var pg := ResolvePaging(p).value.paginator;
    forall total: nat
      ensures Selects(p, pg, total) <==> WindowExact(p, total)
    {
      PaginateMeans(p, total);
    }
    if p.last.Some? && p.before.Some? && p.before.value - Start(p) > p.last.value {
      var total: nat := if Start(p) == 0 then p.before.value - 1 else p.before.value;
      assert !WindowExact(p, total);
      assert !Selects(p, pg, total);
    }
  }

  /** No paginator means that nothing is wanted, whatever the total; and only then is there none. */
  lemma NothingMeans(p: PagingParams)
    requires Agreeable(p)
    ensures ResolvePaging(p).value.Nothing? <==> forall total: nat, i: nat :: !Wanted(p, total, i)
    ensures ResolvePaging(p).value.Nothing? ==> ResolvePaging(p).value.needsTotal == p.includeTotal
  {
    if Hopeless(p) {
      forall total: nat, i: nat
        ensures !Wanted(p, total, i)
      {
        WantedMeans(p, total, i);
      }
    } else {
      WantedMeans(p, Start(p) + 1, Start(p));
      assert Wanted(p, Start(p) + 1, Start(p));
    }
  }

  /** The total is asked for up front only when the window is measured from the end; every other
      window is the same for all totals. */
  lemma TotalNeeded(p: PagingParams)
    requires Agreeable(p) && ResolvePaging(p).value.Windowed?
    ensures var r := ResolvePaging(p).value;
      && (r.needsTotal <==> p.last.Some? && p.before.None?)
      && (r.needsTotal <==> exists t: nat, u: nat :: r.paginator.Apply(t) != r.paginator.Apply(u))
  {
    var pg := ResolvePaging(p).value.paginator;
    if p.last.Some? && p.before.None? {
      var t := pg.offset + p.last.value + 1;
      assert pg.Apply(t) != pg.Apply(t + 1);
    }
  }

  /** A concrete miss: After 0, Before 5, Last 2 of 10 records should give records 3 and 4, and gives
      1 and 2. */
  lemma FrontInsteadOfEnd()
    ensures var p := PagingParams(Some(5), Some(0), None, Some(2), false);
      && ResolvePaging(p) == Ok(Windowed(Paginator(2, 1), false))
      && (forall i: nat :: InWindow((2, 1), 10, i) <==> i == 1 || i == 2)
      && (forall i: nat :: Wanted(p, 10, i) <==> i == 3 || i == 4)
  {
  }

  /** Another: Before 5, Last 2 of 3 records should give records 1 and 2, and gives none. */
  lemma MeasuredFromBefore()
    ensures var p := PagingParams(Some(5), None, None, Some(2), false);
      && ResolvePaging(p) == Ok(Windowed(Paginator(2, 3), false))
      && (forall i: nat :: !InWindow((2, 3), 3, i))
      && (forall i: nat :: Wanted(p, 3, i) <==> i == 1 || i == 2)
  {
  }
}
