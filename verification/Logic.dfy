/**
  The database side of the model: values, rows and SQL's three-valued logic.

  Boolean connectives follow section 6.34 of ISO/IEC 9075-2:2003, IN follows section 8.4.
  The collation is a sort key into the reals, so it is an arbitrary total preorder of a
  countable value domain: two different values may compare equal, as they do under a
  case-insensitive collation.
 */
module Logic {

  datatype Tri = True | False | Unknown

  function FromBool(b: bool): Tri {
    if b then True else False
  }

  function Not3(a: Tri): Tri {
    match a
    case True => False
    case False => True
    case Unknown => Unknown
  }

  function And3(a: Tri, b: Tri): Tri {
    if a == False || b == False then False
    else if a == Unknown || b == Unknown then Unknown
    else True
  }

  function Or3(a: Tri, b: Tri): Tri {
    if a == True || b == True then True
    else if a == Unknown || b == Unknown then Unknown
    else False
  }

  type Byte = n: int | 0 <= n < 256

  /** A bound argument or a column value. `Arr` is a Go slice handed over as one value. */
  datatype Value =
    | Null
    | Int(n: int)
    | Float(f: real)
    | Str(s: string)
    | Bool(b: bool)
    | Time(t: int)
    | Bytes(bs: seq<Byte>)
    | Arr(vs: seq<Value>)

  type Row = map<string, Value>

  /** The tables of a database by the text a FROM clause names them with; a joined source is a table of
      its own. */
  type Db = map<string, seq<Row>>

  function Col(r: Row, c: string): Value {
    if c in r then r[c] else Null
  }

  datatype Op =
    | OpEq | OpNe | OpGt | OpLt | OpGte | OpLte
    | OpLike | OpILike
    | OpIn | OpNotIn
    | OpNull | OpNNull
    | OpContains | OpContainedBy | OpOverlaps

  /** IS NULL and IS NOT NULL: no operand. */
  predicate IsTest(o: Op) {
    o == OpNull || o == OpNNull
  }

  /** IN and NOT IN: a list of operands. */
  predicate IsList(o: Op) {
    o == OpIn || o == OpNotIn
  }

  /** A piece of a developer-written SQL fragment: its text, or a value bound in it. */
  datatype Part = PText(s: string) | PValue(v: Value)

  /** Everything the database decides that the library does not: the collation, the operators
      it leaves to the database, developer-written text, the rows of subquery sources, and the row of
      columns and aggregates by which HAVING sees a group. */
  datatype Env = Env(
    key: Value -> real,
    other: (Op, Value, Value) -> Tri,
    fullText: (string, Value, Value) -> Tri,
    score: (string, Value, Value) -> real,
    fragment: (seq<Part>, Row) -> Tri,
    source: string -> seq<Row>,
    on: (string, Row) -> Tri,
    summary: seq<Row> -> Row)

  /** A comparison with NULL on either side is unknown. */
  function Compare(e: Env, o: Op, a: Value, b: Value): Tri {
    if a.Null? || b.Null? then Unknown
    else if o == OpEq then FromBool(e.key(a) == e.key(b))
    else if o == OpNe then FromBool(e.key(a) != e.key(b))
    else if o == OpGt then FromBool(e.key(a) > e.key(b))
    else if o == OpLt then FromBool(e.key(a) < e.key(b))
    else if o == OpGte then FromBool(e.key(a) >= e.key(b))
    else if o == OpLte then FromBool(e.key(a) <= e.key(b))
    else e.other(o, a, b)
  }

  /** `a IN (vs)`: the disjunction of the equalities. */
  function Member(e: Env, a: Value, vs: seq<Value>): Tri {
    if vs == [] then False
    else Or3(Compare(e, OpEq, a, vs[0]), Member(e, a, vs[1..]))
  }

  /** A fragment is whatever the database makes of it, except for the two constant
      comparisons that the library itself emits. */
  function FragmentMeaning(e: Env, parts: seq<Part>, r: Row): Tri {
    if parts == [PText("1=0")] then False
    else if parts == [PText("1=1")] then True
    else e.fragment(parts, r)
  }

  function MatchMeaning(e: Env, config: string, v: Value, query: Value): Tri {
    if v.Null? then Unknown else e.fullText(config, v, query)
  }
}
