/**
 The canonical JSON serializer: JSON.stringify's text with object members in code-unit key order.
 Values are what the serializer can meet, including the sparse arrays, negative zero, unsafe
 integers and non-JSON objects it was not written for.
 */
module CanonicalJson {
  import opened Utf16
  import opened Wrappers
  import opened KeyOrder

  const MAX_SAFE_INTEGER := 9_007_199_254_740_991

  /** A JavaScript number. Finite numbers that are not integers are identified by their shortest text. */
  datatype Number = Integer(i: int) | Fraction(text: Text) | NegativeZero | NotFinite

  /** An array position: `Hole` is a position of a sparse array that holds no value at all. */
  datatype Elem = Hole | Item(value: Json)

  datatype Json =
    | Null
    | Bool(b: bool)
    | Num(n: Number)
    | Str(s: Text)
    | Arr(elems: seq<Elem>)
    | Obj(fields: seq<Entry<Json>>)
    | NotJson  // undefined, functions, dates, class instances

  // ----- Characters -----

  const QUOTE: Unit := 0x22
  const BACKSLASH: Unit := 0x5C
  const COMMA: Unit := 0x2C
  const COLON: Unit := 0x3A
  const LBRACKET: Unit := 0x5B
  const RBRACKET: Unit := 0x5D
  const LBRACE: Unit := 0x7B
  const RBRACE: Unit := 0x7D
  const MINUS: Unit := 0x2D
  const PLUS: Unit := 0x2B
  const DOT: Unit := 0x2E
  const ZERO: Unit := 0x30
  const LOWER_U: Unit := 0x75
  const NULL_TEXT: Text := [0x6E, 0x75, 0x6C, 0x6C]
  const TRUE_TEXT: Text := [0x74, 0x72, 0x75, 0x65]
  const FALSE_TEXT: Text := [0x66, 0x61, 0x6C, 0x73, 0x65]

  predicate IsDigit(u: Unit) {
    0x30 <= u <= 0x39
  }

  predicate IsNumberUnit(u: Unit) {
    IsDigit(u) || u == MINUS || u == PLUS || u == DOT || u == 0x65 || u == 0x45
  }

  // ----- Numbers -----

  function PrintNat(n: nat): (t: Text)
    ensures t != []
  {
    if n < 10 then [ZERO + n] else PrintNat(n / 10) + [ZERO + n % 10]
  }

  function PrintInt(i: int): (t: Text)
    ensures t != []
  {
    if i < 0 then [MINUS] + PrintNat(-i) else PrintNat(i)
  }

  predicate AllDigits(t: Text) {
    forall i | 0 <= i < |t| :: IsDigit(t[i])
  }

  function NatValue(t: Text): nat
    requires AllDigits(t)
  {
    if t == [] then 0 else 10 * NatValue(t[..|t| - 1]) + (t[|t| - 1] - ZERO)
  }

  /** The grammar's `int` without sign: digits, and no leading zero unless alone. */
  predicate IsIntPart(t: Text) {
    t != [] && AllDigits(t) && (t[0] == ZERO ==> |t| == 1)
  }

  function Unsigned(t: Text): Text {
    if t != [] && t[0] == MINUS then t[1..] else t
  }

  predicate IsIntegerToken(t: Text) {
    IsIntPart(Unsigned(t))
  }

  /** How many of the leading units are digits. */
  function DigitRun(t: Text): (n: nat)
    ensures n <= |t| && AllDigits(t[..n])
  {
    if t == [] || !IsDigit(t[0]) then 0 else 1 + DigitRun(t[1..])
  }

  /** The grammar's `[frac] [exp]` tail of a number. */
  predicate IsFractionTail(t: Text) {
    if t != [] && t[0] == DOT then
      DigitRun(t[1..]) > 0 && IsExponent(t[1 + DigitRun(t[1..])..])
    else IsExponent(t)
  }

  predicate IsExponent(t: Text) {
    t != [] ==>
      && (t[0] == 0x65 || t[0] == 0x45)
      && var digits := if |t| > 1 && (t[1] == PLUS || t[1] == MINUS) then t[2..] else t[1..];
         digits != [] && AllDigits(digits)
  }

  /** A JSON number that is not a plain integer: an integer part and a non-empty fraction or exponent. */
  predicate IsFractionToken(t: Text) {
    var u := Unsigned(t);
    var n := DigitRun(u);
    && (forall k | 0 <= k < |t| :: IsNumberUnit(t[k]))
    && IsIntPart(u[..n])
    && n < |u|
    && IsFractionTail(u[n..])
  }

  // ----- Strings -----

  function HexDigit(d: nat): Unit
    requires d < 16
  {
    if d < 10 then ZERO + d else 0x61 + d - 10
  }

  /** `\uxxxx`, lower-case hexadecimal. */
  function UnicodeEscape(u: Unit): Text {
    [BACKSLASH, LOWER_U, HexDigit(u / 4096), HexDigit(u / 256 % 16), HexDigit(u / 16 % 16), HexDigit(u % 16)]
  }

  /** What JSON.stringify writes for a code unit that is not half of a surrogate pair. */
  function EscapeUnit(u: Unit): (t: Text)
    ensures t != []
  {
    if u == QUOTE then [BACKSLASH, QUOTE]
    else if u == BACKSLASH then [BACKSLASH, BACKSLASH]
    else if u == 0x08 then [BACKSLASH, 0x62]
    else if u == 0x0C then [BACKSLASH, 0x66]
    else if u == 0x0A then [BACKSLASH, 0x6E]
    else if u == 0x0D then [BACKSLASH, 0x72]
    else if u == 0x09 then [BACKSLASH, 0x74]
    else if u < 0x20 || IsHigh(u) || IsLow(u) then UnicodeEscape(u)
    else [u]
  }

  /** Surrogate pairs are written raw; lone surrogates are escaped. */
  function Escape(t: Text): Text {
    if t == [] then []
    else if Width(t) == 2 then t[..2] + Escape(t[2..])
    else EscapeUnit(t[0]) + Escape(t[1..])
  }

  function Quote(t: Text): Text {
    [QUOTE] + Escape(t) + [QUOTE]
  }

  // ----- The serializer -----

  /** `parts.join(",")`. */
  function JoinWithCommas(parts: seq<Text>): Text {
    if parts == [] then []
    else if |parts| == 1 then parts[0]
    else parts[0] + [COMMA] + JoinWithCommas(parts[1..])
  }

  /** `"key":value` for each member, in the order given. */
  function Members(printed: seq<Entry<Text>>): (parts: seq<Text>)
    ensures |parts| == |printed|
  {
    if printed == [] then []
    else [Quote(printed[0].key) + [COLON] + printed[0].value] + Members(printed[1..])
  }

  function PrintNumber(n: Number): Option<Text> {
    match n
    case Integer(i) => if -MAX_SAFE_INTEGER <= i <= MAX_SAFE_INTEGER then Some(PrintInt(i)) else None
    case Fraction(text) => Some(text)
    case NegativeZero => None
    case NotFinite => None
  }

  /** `canonicalJsonStringify`; `None` stands for the thrown validation error. */
  function Serialize(v: Json): Option<Text>
    decreases v, 1
  {
    match v
    case Null => Some(NULL_TEXT)
    case Bool(b) => Some(if b then TRUE_TEXT else FALSE_TEXT)
    case Str(s) => Some(Quote(s))
    case Num(n) => PrintNumber(n)
    case Arr(elems) =>
      var parts := SerializeElems(elems);
      if parts.None? then None else Some([LBRACKET] + JoinWithCommas(parts.value) + [RBRACKET])
    case Obj(fields) =>
      var printed := SerializeFields(fields);
      if printed.None? then None else Some([LBRACE] + JoinWithCommas(Members(Sort(printed.value))) + [RBRACE])
    case NotJson => None
  }

  function SerializeElem(e: Elem): Option<Text>
    decreases e, 0
  {
    match e
    case Hole => Some([])
    case Item(value) => Serialize(value)
  }

  /** `value.map(...)` skips holes and `join` writes nothing for them. */
  function SerializeElems(elems: seq<Elem>): (r: Option<seq<Text>>)
    ensures r.Some? ==> |r.value| == |elems|
    decreases elems, 0
  {
    if elems == [] then Some([])
    else
      var first := SerializeElem(elems[0]);
      var rest := SerializeElems(elems[1..]);
      if first.None? || rest.None? then None else Some([first.value] + rest.value)
  }

  function SerializeFields(fields: seq<Entry<Json>>): (r: Option<seq<Entry<Text>>>)
    ensures r.Some? ==> |r.value| == |fields|
    decreases fields, 0
  {
    if fields == [] then Some([])
    else
      var first := Serialize(fields[0].value);
      var rest := SerializeFields(fields[1..]);
      if first.None? || rest.None? then None else Some([Entry(fields[0].key, first.value)] + rest.value)
  }

  // ----- Values -----

  /** What the host language guarantees: keys of one object differ, and fractions print as fractions. */
  ghost predicate Proper(v: Json) {
    match v
    case Num(Fraction(text)) => IsFractionToken(text) && !IsIntegerToken(text)
    case Arr(elems) => forall e | e in elems && e.Item? :: Proper(e.value)
    case Obj(fields) => DistinctKeys(fields) && forall f | f in fields :: Proper(f.value)
    case _ => true
  }

  /** No array anywhere inside `v` is sparse. */
  predicate Dense(v: Json) {
    match v
    case Arr(elems) => forall e | e in elems :: e.Item? && Dense(e.value)
    case Obj(fields) => forall f | f in fields :: Dense(f.value)
    case _ => true
  }

  /** The serializer accepts `v`. */
  predicate Accepted(v: Json) {
    match v
    case Num(n) => PrintNumber(n).Some?
    case Arr(elems) => forall e | e in elems && e.Item? :: Accepted(e.value)
    case Obj(fields) => forall f | f in fields :: Accepted(f.value)
    case NotJson => false
    case _ => true
  }

  /** `v` with the members of every object in key order. */
  function Normal(v: Json): Json
    decreases v, 1
  {
    match v
    case Arr(elems) => Arr(NormalElems(elems))
    case Obj(fields) => Obj(Sort(NormalFields(fields)))
    case _ => v
  }

  function NormalElem(e: Elem): Elem
    decreases e, 0
  {
    match e
    case Hole => Hole
    case Item(value) => Item(Normal(value))
  }

  function NormalElems(elems: seq<Elem>): (r: seq<Elem>)
    ensures |r| == |elems|
    decreases elems, 0
  {
    if elems == [] then []
    else [NormalElem(elems[0])] + NormalElems(elems[1..])
  }

  function NormalFields(fields: seq<Entry<Json>>): (r: seq<Entry<Json>>)
    ensures |r| == |fields|
    decreases fields, 0
  {
    if fields == [] then [] else [Entry(fields[0].key, Normal(fields[0].value))] + NormalFields(fields[1..])
  }

  /** The same JSON value, read as JSON reads it: the order of object members does not matter. */
  ghost predicate Same(v: Json, w: Json)
    decreases v
  {
    match (v, w)
    case (Arr(xs), Arr(ys)) =>
      && |xs| == |ys|
      && forall i | 0 <= i < |xs| ::
           if xs[i].Item? && ys[i].Item? then Same(xs[i].value, ys[i].value) else xs[i] == ys[i]
    case (Obj(fs), Obj(gs)) =>
      && Keys(fs) == Keys(gs)
      && (forall f | f in fs :: exists g | g in gs :: f.key == g.key && Same(f.value, g.value))
    case _ => v == w
  }
}
