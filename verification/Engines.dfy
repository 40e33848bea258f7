/**
  What each database accepts and how it behaves, stated apart from the library's own dialect table:
  the theorems about executed statements compare the two.
 */
module Engines {
  import opened Dialects
  import opened Sql

  /** Postgres takes numbered placeholders, the other two a bare `?`. */
  function TakesMarker(d: Dialect): Marker {
    match d
    case Postgres => Numbered
    case MySQL => Positional
    case SQLite => Positional
  }

  /** Identifiers stand in backticks on MySQL, and in the double quotes of the SQL standard elsewhere. */
  function IdentifierQuote(d: Dialect): char {
    match d
    case Postgres => '"'
    case MySQL => '`'
    case SQLite => '"'
  }

  /** NULLS FIRST and NULLS LAST are no MySQL syntax. */
  predicate TakesNullsClause(d: Dialect) {
    d == Postgres || d == SQLite
  }

  /** ISNULL(x) is a function of MySQL alone. */
  predicate TakesIsNull(d: Dialect) {
    d == MySQL
  }

  /** SQLite has no relevance expression. */
  predicate TakesRank(d: Dialect) {
    d == Postgres || d == MySQL
  }

  /** Only Postgres takes OFFSET without LIMIT. */
  predicate TakesBareOffset(d: Dialect) {
    d == Postgres
  }

  /** A negative LIMIT means no bound on SQLite, and is an error elsewhere. */
  predicate TakesNegativeLimit(d: Dialect) {
    d == SQLite
  }

  /** Without a declared placement, Postgres sorts NULL above every value, the others below. */
  predicate NullsHighest(d: Dialect) {
    d == Postgres
  }

  /** MySQL counts rows in 64 bits. */
  predicate Countable(d: Dialect, rows: nat) {
    d == MySQL ==> rows <= 0xFFFF_FFFF_FFFF_FFFF
  }
}
