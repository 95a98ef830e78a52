/**
 An independent reader of compact JSON text, the partner the canonical serializer is proved against.
 It follows the grammar of RFC 8259 without insignificant white space, refuses repeated names and
 integers outside the safe range, and can never produce a sparse array.
 */
module JsonReader {
  import opened Utf16
  import opened Wrappers
  import opened KeyOrder
  import opened CanonicalJson

  /** A value together with the text left unread. */
  datatype Reading<+T> = Reading(value: T, rest: Text)

  function Starts(t: Text, prefix: Text): bool {
    |prefix| <= |t| && t[..|prefix|] == prefix
  }

  function HexValue(u: Unit): (d: Option<nat>)
    ensures d.Some? ==> d.value < 16
  {
    if IsDigit(u) then Some(u - ZERO)
    else if 0x61 <= u <= 0x66 then Some(u - 0x61 + 10)
    else if 0x41 <= u <= 0x46 then Some(u - 0x41 + 10)
    else None
  }

  function HexUnit(t: Text): (u: Option<Unit>)
    requires |t| >= 4
  {
    var a, b, c, d := HexValue(t[0]), HexValue(t[1]), HexValue(t[2]), HexValue(t[3]);
    if a.None? || b.None? || c.None? || d.None? then None
    else Some(4096 * a.value + 256 * b.value + 16 * c.value + d.value)
  }

  /** The unit a two-character escape stands for. */
  function ShortEscape(u: Unit): Option<Unit> {
    if u == QUOTE || u == BACKSLASH || u == 0x2F then Some(u)
    else if u == 0x62 then Some(0x08)
    else if u == 0x66 then Some(0x0C)
    else if u == 0x6E then Some(0x0A)
    else if u == 0x72 then Some(0x0D)
    else if u == 0x74 then Some(0x09)
    else None
  }

  /** The characters of a string, up to and including its closing quote. */
  function ReadChars(t: Text): (r: Option<Reading<Text>>)
    ensures r.Some? ==> |r.value.rest| < |t|
  {
    if t == [] then None
    else if t[0] == QUOTE then Some(Reading([], t[1..]))
    else if t[0] == BACKSLASH then
      if |t| < 2 then None
      else if t[1] == LOWER_U then
        if |t| < 6 then None else PrependUnit(HexUnit(t[2..6]), ReadChars(t[6..]))
      else PrependUnit(ShortEscape(t[1]), ReadChars(t[2..]))
    else if t[0] < 0x20 then None
    else PrependUnit(Some(t[0]), ReadChars(t[1..]))
  }

  function PrependUnit(u: Option<Unit>, more: Option<Reading<Text>>): (r: Option<Reading<Text>>)
    ensures r.Some? ==> more.Some? && r.value.rest == more.value.rest
  {
    if u.None? || more.None? then None else Some(Reading([u.value] + more.value.value, more.value.rest))
  }

  function NumberRun(t: Text): (n: nat)
    ensures n <= |t|
  {
    if t == [] || !IsNumberUnit(t[0]) then 0 else 1 + NumberRun(t[1..])
  }

  function IntegerOf(token: Text): int
    requires IsIntegerToken(token)
  {
    var magnitude: int := NatValue(Unsigned(token));
    if token[0] == MINUS then -magnitude else magnitude
  }

  function NumberOf(token: Text): Option<Number> {
    if token == [MINUS, ZERO] then Some(NegativeZero)
    else if IsIntegerToken(token) then
      if -MAX_SAFE_INTEGER <= IntegerOf(token) <= MAX_SAFE_INTEGER then Some(Integer(IntegerOf(token))) else None
    else if IsFractionToken(token) then Some(Fraction(token))
    else None
  }

  function Read(t: Text): (r: Option<Reading<Json>>)
    ensures r.Some? ==> |r.value.rest| < |t|
    decreases |t|, 0
  {
    if t == [] then None
    else if t[0] == QUOTE then
      var chars := ReadChars(t[1..]);
      if chars.None? then None else Some(Reading(Str(chars.value.value), chars.value.rest))
    else if t[0] == LBRACKET then
      if |t| > 1 && t[1] == RBRACKET then Some(Reading(Arr([]), t[2..]))
      else
        var elems := ReadElems(t[1..]);
        if elems.None? then None else Some(Reading(Arr(elems.value.value), elems.value.rest))
    else if t[0] == LBRACE then
      if |t| > 1 && t[1] == RBRACE then Some(Reading(Obj([]), t[2..]))
      else
        var fields := ReadFields(t[1..]);
        if fields.None? then None else Some(Reading(Obj(fields.value.value), fields.value.rest))
    else if Starts(t, NULL_TEXT) then Some(Reading(Null, t[|NULL_TEXT|..]))
    else if Starts(t, TRUE_TEXT) then Some(Reading(Bool(true), t[|TRUE_TEXT|..]))
    else if Starts(t, FALSE_TEXT) then Some(Reading(Bool(false), t[|FALSE_TEXT|..]))
    else
      var n := NumberRun(t);
      var number := NumberOf(t[..n]);
      if n == 0 || number.None? then None else Some(Reading(Num(number.value), t[n..]))
  }

  /** One or more elements separated by commas, up to and including the closing bracket. */
  function ReadElems(t: Text): (r: Option<Reading<seq<Elem>>>)
    ensures r.Some? ==> |r.value.rest| < |t|
    decreases |t|, 1
  {
    var first := Read(t);
    if first.None? then None else
    var rest := first.value.rest;
    if rest == [] then None
    else if rest[0] == RBRACKET then Some(Reading([Item(first.value.value)], rest[1..]))
    else if rest[0] == COMMA then
      var more := ReadElems(rest[1..]);
      if more.None? then None else Some(Reading([Item(first.value.value)] + more.value.value, more.value.rest))
    else None
  }

  /** One or more members separated by commas, up to and including the closing brace. */
  function ReadFields(t: Text): (r: Option<Reading<seq<Entry<Json>>>>)
    ensures r.Some? ==> |r.value.rest| < |t|
    decreases |t|, 1
  {
    if t == [] || t[0] != QUOTE then None else
    var key := ReadChars(t[1..]);
    if key.None? || key.value.rest == [] || key.value.rest[0] != COLON then None else
    var value := Read(key.value.rest[1..]);
    if value.None? || value.value.rest == [] then None else
    var field, rest := Entry(key.value.value, value.value.value), value.value.rest;
    if rest[0] == RBRACE then Some(Reading([field], rest[1..]))
    else if rest[0] == COMMA then
      var more := ReadFields(rest[1..]);
      if more.None? || HasKey(more.value.value, field.key) then None
      else Some(Reading([field] + more.value.value, more.value.rest))
    else None
  }

  predicate HasKey(fields: seq<Entry<Json>>, key: Text) {
    exists f | f in fields :: f.key == key
  }

  /** Reads a whole text. */
  function Parse(t: Text): Option<Json> {
    var r := Read(t);
    if r.Some? && r.value.rest == [] then Some(r.value.value) else None
  }

  // ----- Reading never yields a sparse array -----

  lemma {:induction false} ReadIsDense(t: Text)
    ensures Read(t).Some? ==> Dense(Read(t).value.value)
    decreases |t|, 0
  {
    if t != [] && t[0] == LBRACKET {
      ReadElemsAreDense(t[1..]);
    } else if t != [] && t[0] == LBRACE {
      ReadFieldsAreDense(t[1..]);
    }
  }

  lemma {:induction false} ReadElemsAreDense(t: Text)
    ensures ReadElems(t).Some? ==> forall e | e in ReadElems(t).value.value :: e.Item? && Dense(e.value)
    decreases |t|, 1
  {
    ReadIsDense(t);
    var first := Read(t);
    if first.Some? && first.value.rest != [] && first.value.rest[0] == COMMA {
      ReadElemsAreDense(first.value.rest[1..]);
    }
  }

  lemma {:induction false} ReadFieldsAreDense(t: Text)
    ensures ReadFields(t).Some? ==> forall f | f in ReadFields(t).value.value :: Dense(f.value)
    decreases |t|, 1
  {
    if t != [] && t[0] == QUOTE {
      var key := ReadChars(t[1..]);
      if key.Some? && key.value.rest != [] && key.value.rest[0] == COLON {
        ReadIsDense(key.value.rest[1..]);
        var value := Read(key.value.rest[1..]);
        if value.Some? && value.value.rest != [] && value.value.rest[0] == COMMA {
          ReadFieldsAreDense(value.value.rest[1..]);
        }
      }
    }
  }
}
