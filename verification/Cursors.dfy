/**
  Cursor tokens: each key value is tagged with its kind, numbers travel as decimal text, and
  decoding gives back the canonical form of every key. Base64 and JSON framing are left to the
  `Token` constructor; the text forms of times, byte strings and floats are a codec whose two
  directions undo each other.
 */
module Cursors {
  import opened Logic
  import opened Wrappers

  type Int64 = n: int | -0x8000_0000_0000_0000 <= n < 0x8000_0000_0000_0000
  type Uint64 = n: int | 0 <= n < 0x1_0000_0000_0000_0000

  /** A Go value as a row's key field holds it. */
  datatype Go =
    | GoNil
    | GoInt(i: Int64)
    | GoUint(u: Uint64)
    | GoFloat(f: real)
    | GoNonFinite(nf: Value)
    | GoString(s: string)
    | GoBool(b: bool)
    | GoTime(t: int)
    | GoBytes(bs: seq<Byte>)
    | GoPointer(target: Option<Go>)
    | GoValuer(fails: bool, dv: Go)
    | GoOther(v: Value)

  /** The value a driver binds for it. */
  function SqlOf(g: Go): Value {
    match g
    case GoNil => Null
    case GoInt(i) => Int(i)
    case GoUint(u) => Int(u)
    case GoFloat(f) => Float(f)
    case GoNonFinite(v) => v
    case GoString(s) => Str(s)
    case GoBool(b) => Bool(b)
    case GoTime(t) => Time(t)
    case GoBytes(bs) => Bytes(bs)
    case GoPointer(target) => if target.None? then Null else SqlOf(target.value)
    case GoValuer(_, dv) => SqlOf(dv)
    case GoOther(v) => v
  }

  datatype Error = NotEncodable | BadCursor | BadElement

  /** The text forms that the standard library provides. */
  datatype Codec = Codec(
    timeOk: int -> bool, formatTime: int -> string, parseTime: string -> Option<int>,
    encodeBytes: seq<Byte> -> string, decodeBytes: string -> Option<seq<Byte>>,
    floatOk: real -> bool, formatFloat: real -> string, parseFloat: string -> Option<real>)

  /** Each pair undoes itself: RFC 3339 text on the years it can write, decimal text on the values that
      a float64 can hold. */
  ghost predicate Lawful(codec: Codec) {
    && (forall t :: codec.timeOk(t) ==> codec.parseTime(codec.formatTime(t)) == Some(t))
    && (forall bs :: codec.decodeBytes(codec.encodeBytes(bs)) == Some(bs))
    && (forall f :: codec.floatOk(f) ==> codec.parseFloat(codec.formatFloat(f)) == Some(f))
  }

  // ---------------------------------------------------------------- decimal text

  function Digit(d: nat): char
    requires d < 10
  {
    ('0' as int + d) as char
  }

  function DigitValue(c: char): Option<nat> {
    if '0' <= c <= '9' then Some(c as int - '0' as int) else None
  }

  function Decimal(n: nat): (s: string)
    ensures |s| > 0
  {
    if n < 10 then [Digit(n)] else Decimal(n / 10) + [Digit(n % 10)]
  }

  function SignedDecimal(n: int): string {
    if n < 0 then ['-'] + Decimal(-n) else Decimal(n)
  }

  function ParseDigits(s: string): Option<nat> {
    if s == "" then None
    else
      match DigitValue(s[|s| - 1])
      case None => None
      case Some(d) =>
        if |s| == 1 then Some(d)
        else
          match ParseDigits(s[..|s| - 1])
          case None => None
          case Some(n) => Some(10 * n + d)
  }

  /** Base-10 parsing into 64 bits: an optional sign, digits, and a range check. */
  function ParseInt64(s: string): Option<Int64> {
    if s == "" then None
    else
      var signed := s[0] == '-' || s[0] == '+';
      match ParseDigits(if signed then s[1..] else s)
      case None => None
      case Some(n) =>
        var value := if s[0] == '-' then 0 - n else n as int;
        if -0x8000_0000_0000_0000 <= value < 0x8000_0000_0000_0000 then Some(value) else None
  }

  function ParseUint64(s: string): Option<Uint64> {
    match ParseDigits(s)
    case None => None
    case Some(n) => if n < 0x1_0000_0000_0000_0000 then Some(n) else None
  }

  lemma {:induction false} DigitsExact(n: nat)
    ensures ParseDigits(Decimal(n)) == Some(n)
    ensures Decimal(n)[0] != '-' && Decimal(n)[0] != '+'
  {
    if n >= 10 {
      DigitsExact(n / 10);
      var s := Decimal(n);
      assert s[..|s| - 1] == Decimal(n / 10);
      assert s[|s| - 1] == Digit(n % 10);
      assert 10 * (n / 10) + n % 10 == n;
    }
  }

  /** Every integer prints to text that parses back to it exactly when it fits 64 bits. */
  lemma DecimalExact(n: int)
    ensures ParseInt64(SignedDecimal(n)) ==
      if -0x8000_0000_0000_0000 <= n < 0x8000_0000_0000_0000 then Some(n) else None
    ensures ParseUint64(SignedDecimal(n)) == if 0 <= n < 0x1_0000_0000_0000_0000 then Some(n) else None
  {
    var s := SignedDecimal(n);
    if n < 0 {
      DigitsExact(-n);
      assert s[1..] == Decimal(-n);
      SignIsNoDigit(Decimal(-n));
    } else {
      DigitsExact(n);
    }
  }

  lemma {:induction false} SignIsNoDigit(s: string)
    ensures ParseDigits(['-'] + s) == None
    decreases |s|
  {
    var t := ['-'] + s;
    if s != "" {
      SignIsNoDigit(s[..|s| - 1]);
      assert t[..|t| - 1] == ['-'] + s[..|s| - 1];
    }
  }

  // ---------------------------------------------------------------- elements

  /** One key before JSON: its tag and the value stored under it. */
  datatype Raw = RawNil | RawInt(i: int) | RawFloat(f: real) | RawNonFinite | RawString(s: string) | RawBool(b: bool)

  datatype Elem = Elem(tag: string, raw: Raw)

  /** A JSON value as the decoder yields it, numbers kept as text. */
  datatype Json = JNull | JNumber(text: string) | JString(s: string) | JBool(b: bool)

  datatype Wire = Wire(tag: string, v: Json)

  /** No cursor is the empty string; a malformed one is any text that is not a JSON array of elements. */
  datatype Cursor = NoCursor | Token(elems: seq<Wire>) | Malformed(text: string)

  function ToElem(codec: Codec, g: Go): Result<Elem, Error> {
    match g
    case GoNil => Ok(Elem("0", RawNil))
    case GoTime(t) => Ok(Elem("t", RawString(codec.formatTime(t))))
    case GoBytes(bs) => Ok(Elem("x", RawString(codec.encodeBytes(bs))))
    case GoPointer(target) => if target.None? then Ok(Elem("0", RawNil)) else ToElem(codec, target.value)
    case GoValuer(fails, dv) =>
      if fails then Err(NotEncodable)
      else if dv.GoNil? then Ok(Elem("0", RawNil))
      else ToElem(codec, dv)
    case GoInt(i) => Ok(Elem("i", RawInt(i)))
    case GoUint(u) => Ok(Elem("u", RawInt(u)))
    case GoFloat(f) => Ok(Elem("f", RawFloat(f)))
    case GoNonFinite(_) => Ok(Elem("f", RawNonFinite))
    case GoString(s) => Ok(Elem("s", RawString(s)))
    case GoBool(b) => Ok(Elem("b", RawBool(b)))
    case GoOther(_) => Err(NotEncodable)
  }

  function MarshalValue(codec: Codec, r: Raw): Option<Json> {
    match r
    case RawNil => Some(JNull)
    case RawInt(i) => Some(JNumber(SignedDecimal(i)))
    case RawFloat(f) => Some(JNumber(codec.formatFloat(f)))
    case RawNonFinite => None
    case RawString(s) => Some(JString(s))
    case RawBool(b) => Some(JBool(b))
  }

  function FromElem(codec: Codec, w: Wire): Result<Go, Error> {
    if w.tag == "0" then Ok(GoNil)
    else if w.tag == "i" then
      if w.v.JNumber? && ParseInt64(w.v.text).Some? then Ok(GoInt(ParseInt64(w.v.text).value)) else Err(BadElement)
    else if w.tag == "u" then
      if w.v.JNumber? && ParseUint64(w.v.text).Some? then Ok(GoUint(ParseUint64(w.v.text).value)) else Err(BadElement)
    else if w.tag == "f" then
      if w.v.JNumber? && codec.parseFloat(w.v.text).Some? then Ok(GoFloat(codec.parseFloat(w.v.text).value))
      else Err(BadElement)
    else if w.tag == "s" then
      if w.v.JString? then Ok(GoString(w.v.s)) else Err(BadElement)
    else if w.tag == "b" then
      if w.v.JBool? then Ok(GoBool(w.v.b)) else Err(BadElement)
    else if w.tag == "t" then
      if w.v.JString? && codec.parseTime(w.v.s).Some? then Ok(GoTime(codec.parseTime(w.v.s).value)) else Err(BadElement)
    else if w.tag == "x" then
      if w.v.JString? && codec.decodeBytes(w.v.s).Some? then Ok(GoBytes(codec.decodeBytes(w.v.s).value))
      else Err(BadElement)
    else Err(BadElement)
  }

  // ---------------------------------------------------------------- whole cursors

  /** The wire element of one key, when it has one. */
  function WireOf(codec: Codec, g: Go): Option<Wire> {
    match ToElem(codec, g)
    case Err(_) => None
    case Ok(e) =>
      match MarshalValue(codec, e.raw)
      case None => None
      case Some(v) => Some(Wire(e.tag, v))
  }

  predicate AllWired(codec: Codec, vals: seq<Go>) {
    forall i :: 0 <= i < |vals| ==> WireOf(codec, vals[i]).Some?
  }

  function Wires(codec: Codec, vals: seq<Go>): (ws: seq<Wire>)
    requires AllWired(codec, vals)
    ensures |ws| == |vals|
    ensures forall i :: 0 <= i < |vals| ==> Some(ws[i]) == WireOf(codec, vals[i])
  {
    if vals == [] then []
    else
      assert WireOf(codec, vals[0]).Some?;
      [WireOf(codec, vals[0]).value] + Wires(codec, vals[1..])
  }

  function Encode(codec: Codec, vals: seq<Go>): Result<Cursor, Error> {
    if AllWired(codec, vals) then Ok(Token(Wires(codec, vals))) else Err(NotEncodable)
  }

  /** All keys are converted before the list is marshalled; either step may fail. */
  method EncodeCursor(codec: Codec, vals: seq<Go>) returns (c: Result<Cursor, Error>)
    ensures c == Encode(codec, vals)
  {
    var elems: seq<Elem> := [];
    for i := 0 to |vals|
      invariant |elems| == i
      invariant forall j :: 0 <= j < i ==> ToElem(codec, vals[j]) == Ok(elems[j])
    {
      var e := ToElem(codec, vals[i]);
      if e.Err? {
        assert WireOf(codec, vals[i]).None?;
        return Err(NotEncodable);
      }
      elems := elems + [e.value];
    }
    var wires: seq<Wire> := [];
    for i := 0 to |elems|
      invariant |wires| == i
      invariant forall j :: 0 <= j < i ==> WireOf(codec, vals[j]) == Some(wires[j])
    {
      var v := MarshalValue(codec, elems[i].raw);
      if v.None? {
        assert WireOf(codec, vals[i]).None?;
        return Err(NotEncodable);
      }
      wires := wires + [Wire(elems[i].tag, v.value)];
    }
    assert wires == Wires(codec, vals);
    c := Ok(Token(wires));
  }

  function DecodeElems(codec: Codec, elems: seq<Wire>): Result<seq<Go>, Error> {
    if elems == [] then Ok([])
    else
      match FromElem(codec, elems[0])
      case Err(e) => Err(e)
      case Ok(v) =>
        match DecodeElems(codec, elems[1..])
        case Err(e) => Err(e)
        case Ok(vs) => Ok([v] + vs)
  }

  function Decode(codec: Codec, c: Cursor): Result<seq<Go>, Error> {
    if c.Token? then DecodeElems(codec, c.elems) else Err(BadCursor)
  }

  ghost function After(done: seq<Go>, rest: Result<seq<Go>, Error>): Result<seq<Go>, Error> {
    if rest.Err? then rest else Ok(done + rest.value)
  }

  lemma AfterNothing(rest: Result<seq<Go>, Error>)
    ensures After([], rest) == rest
  {
    if rest.Ok? {
      assert [] + rest.value == rest.value;
    }
  }

  /** The element has a known tag, and a value of the kind and range that the tag asks for. */
  predicate Readable(codec: Codec, w: Wire) {
    || w.tag == "0"
    || (w.v.JBool? && w.tag == "b")
    || (w.v.JString? && (
          || w.tag == "s" || (w.tag == "t" && codec.parseTime(w.v.s).Some?)
          || (w.tag == "x" && codec.decodeBytes(w.v.s).Some?)))
    || (w.v.JNumber? && (
          || (w.tag == "i" && ParseInt64(w.v.text).Some?) || (w.tag == "u" && ParseUint64(w.v.text).Some?)
          || (w.tag == "f" && codec.parseFloat(w.v.text).Some?)))
  }

  /** Decoding fails on everything else: no token at all, or one with a single element that has another
      tag or a value of the wrong kind or out of range. */
  lemma {:induction false} DecodeExactly(codec: Codec, c: Cursor)
    ensures Decode(codec, c).Ok? <==> c.Token? && forall i :: 0 <= i < |c.elems| ==> Readable(codec, c.elems[i])
    ensures Decode(codec, c).Err? ==> Decode(codec, c).error == if c.Token? then BadElement else BadCursor
    decreases if c.Token? then |c.elems| else 0
  {
    if c.Token? && c.elems != [] {
      var rest := Token(c.elems[1..]);
      DecodeExactly(codec, rest);
      hide ParseInt64;
      hide ParseUint64;
      assert forall i :: 0 < i < |c.elems| ==> c.elems[i] == rest.elems[i - 1];
      assert forall i :: 0 <= i < |rest.elems| ==> rest.elems[i] == c.elems[i + 1];
    }
  }

  method DecodeCursor(codec: Codec, c: Cursor) returns (vals: Result<seq<Go>, Error>)
    ensures vals == Decode(codec, c)
  {
    if !c.Token? {
      return Err(BadCursor);
    }
    var out: seq<Go> := [];
    AfterNothing(DecodeElems(codec, c.elems));
    assert c.elems[0..] == c.elems;
    for i := 0 to |c.elems|
      invariant DecodeElems(codec, c.elems) == After(out, DecodeElems(codec, c.elems[i..]))
    {
      var v := FromElem(codec, c.elems[i]);
      assert c.elems[i..][1..] == c.elems[i + 1..];
      if v.Err? {
        return Err(v.error);
      }
      ghost var more := DecodeElems(codec, c.elems[i + 1..]);
      assert more.Ok? ==> out + ([v.value] + more.value) == out + [v.value] + more.value;
      out := out + [v.value];
    }
    assert c.elems[|c.elems|..] == [];
    assert out + [] == out;
    vals := Ok(out);
  }

  // ---------------------------------------------------------------- the round trip

  /** The form a key takes after a round trip: pointers and Valuers unwrapped, nil for NULL, and
      otherwise the same kind with the same value. */
  function Canonical(g: Go): Go {
    match g
    case GoPointer(target) => if target.None? then GoNil else Canonical(target.value)
    case GoValuer(_, dv) => Canonical(dv)
    case _ => g
  }

  function Canonicals(vals: seq<Go>): (cs: seq<Go>)
    ensures |cs| == |vals|
    ensures forall i :: 0 <= i < |vals| ==> cs[i] == Canonical(vals[i])
  {
    if vals == [] then [] else [Canonical(vals[0])] + Canonicals(vals[1..])
  }

  /** What a cursor can hold: no failing Valuer on the way, a supported kind, a finite float. */
  predicate Encodable(g: Go) {
    match g
    case GoPointer(target) => target.None? || Encodable(target.value)
    case GoValuer(fails, dv) => !fails && Encodable(dv)
    case GoNonFinite(_) => false
    case GoOther(_) => false
    case _ => true
  }

  /** The text form of the value loses nothing. */
  predicate TextOk(codec: Codec, g: Go) {
    var c := Canonical(g);
    (c.GoTime? ==> codec.timeOk(c.t)) && (c.GoFloat? ==> codec.floatOk(c.f))
  }

  lemma {:induction false} CanonicalBinds(g: Go)
    ensures SqlOf(Canonical(g)) == SqlOf(g)
    ensures var c := Canonical(g); !c.GoPointer? && !c.GoValuer?
  {
    match g
    case GoPointer(target) => if target.Some? { CanonicalBinds(target.value); }
    case GoValuer(_, dv) => CanonicalBinds(dv);
    case _ =>
  }

  lemma {:induction false} WiredIffEncodable(codec: Codec, g: Go)
    ensures WireOf(codec, g).Some? <==> Encodable(g)
  {
    match g
    case GoPointer(target) => if target.Some? { WiredIffEncodable(codec, target.value); }
    case GoValuer(_, dv) => WiredIffEncodable(codec, dv);
    case _ =>
  }

  /** One key comes back in canonical form. */
  lemma {:induction false} ElemRoundTrip(codec: Codec, g: Go)
    requires Lawful(codec) && Encodable(g) && TextOk(codec, g)
    ensures WireOf(codec, g).Some? && FromElem(codec, WireOf(codec, g).value) == Ok(Canonical(g))
  {
    match g
    case GoPointer(target) => if target.Some? { ElemRoundTrip(codec, target.value); }
    case GoValuer(_, dv) => ElemRoundTrip(codec, dv);
    case GoInt(i) => DecimalExact(i);
    case GoUint(u) => DecimalExact(u);
    case _ =>
  }

  /** Encoding succeeds exactly on encodable keys, and decoding the token returns every key in
      canonical form, which binds the same SQL value: seeking by the token is seeking by the key. */
  lemma CursorRoundTrip(codec: Codec, vals: seq<Go>)
    requires Lawful(codec) && forall i :: 0 <= i < |vals| ==> TextOk(codec, vals[i])
    ensures Encode(codec, vals).Ok? <==> forall i :: 0 <= i < |vals| ==> Encodable(vals[i])
    ensures Encode(codec, vals).Ok? ==>
      Encode(codec, vals).value.Token? && Decode(codec, Encode(codec, vals).value) == Ok(Canonicals(vals))
  {
    forall i | 0 <= i < |vals|
      ensures WireOf(codec, vals[i]).Some? <==> Encodable(vals[i])
    {
      WiredIffEncodable(codec, vals[i]);
    }
    if AllWired(codec, vals) {
      WiresRoundTrip(codec, vals);
    }
  }

  lemma {:induction false} WiresRoundTrip(codec: Codec, vals: seq<Go>)
    requires Lawful(codec) && forall i :: 0 <= i < |vals| ==> TextOk(codec, vals[i]) && Encodable(vals[i])
    requires AllWired(codec, vals)
    ensures DecodeElems(codec, Wires(codec, vals)) == Ok(Canonicals(vals))
  {
    if vals != [] {
      ElemRoundTrip(codec, vals[0]);
      WiresRoundTrip(codec, vals[1..]);
    }
  }
}
