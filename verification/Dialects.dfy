/** The library's table of SQL dialects: what it emits for each. */
module Dialects {
  import opened Sql
  import opened Wrappers

  datatype Dialect = Postgres | MySQL | SQLite

  function MarkerOf(d: Dialect): Marker {
    if d.Postgres? then Numbered else Positional
  }

  predicate SupportsNullsOrdering(d: Dialect) {
    !d.MySQL?
  }

  predicate SupportsRelevance(d: Dialect) {
    !d.SQLite?
  }

  /** The LIMIT that means "all rows", for the dialects where OFFSET needs one. */
  function AllRowsLimit(d: Dialect): Option<int> {
    match d
    case Postgres => None
    case MySQL => Some(18446744073709551615)
    case SQLite => Some(-1)
  }
}
