/**
 What the canonical serializer is for: its text is JSON that reads back to the value, equal texts
 mean equal values, and key order never shows.
 */
module CanonicalRoundTrip {
  import opened Utf16
  import opened Wrappers
  import opened KeyOrder
  import opened CanonicalJson
  import opened JsonReader

  // ----- Canonical text is ordinary text of the key-ordered value -----

  /** Ordinary JSON text: members in the order they are stored. */
  function Plain(v: Json): Text
    decreases v, 1
  {
    match v
    case Null => NULL_TEXT
    case Bool(b) => if b then TRUE_TEXT else FALSE_TEXT
    case Str(s) => Quote(s)
    case Num(n) => if PrintNumber(n).Some? then PrintNumber(n).value else []
    case Arr(elems) => [LBRACKET] + JoinWithCommas(PlainElems(elems)) + [RBRACKET]
    case Obj(fields) => [LBRACE] + JoinWithCommas(Members(PlainFields(fields))) + [RBRACE]
    case NotJson => []
  }

  function PlainElem(e: Elem): Text
    decreases e, 0
  {
    match e
    case Hole => []
    case Item(value) => Plain(value)
  }

  function PlainElems(elems: seq<Elem>): (parts: seq<Text>)
    ensures |parts| == |elems|
    decreases elems, 0
  {
    if elems == [] then [] else [PlainElem(elems[0])] + PlainElems(elems[1..])
  }

  function PlainField(f: Entry<Json>): Entry<Text>
    decreases f, 0
  {
    Entry(f.key, Plain(f.value))
  }

  function PlainFields(fields: seq<Entry<Json>>): (parts: seq<Entry<Text>>)
    ensures |parts| == |fields|
    decreases fields, 0
  {
    if fields == [] then [] else [PlainField(fields[0])] + PlainFields(fields[1..])
  }

  lemma {:induction false} PlainFieldsInsert(f: Entry<Json>, fields: seq<Entry<Json>>)
    ensures PlainFields(Insert(f, fields)) == Insert(PlainField(f), PlainFields(fields))
  {
    if fields == [] || !KeyLess(fields[0].key, f.key) {
      assert ([f] + fields)[1..] == fields;
    } else {
      PlainFieldsInsert(f, fields[1..]);
      assert ([fields[0]] + Insert(f, fields[1..]))[1..] == Insert(f, fields[1..]);
    }
  }

  lemma {:induction false} PlainFieldsSort(fields: seq<Entry<Json>>)
    ensures PlainFields(Sort(fields)) == Sort(PlainFields(fields))
  {
    if fields != [] {
      PlainFieldsSort(fields[1..]);
      PlainFieldsInsert(fields[0], Sort(fields[1..]));
    }
  }

  /** The serializer throws exactly on the values it does not accept, and otherwise prints the key-ordered value. */
  lemma {:induction false} SerializeIsPlainNormal(v: Json)
    ensures Serialize(v) == if Accepted(v) then Some(Plain(Normal(v))) else None
    decreases v, 1
  {
    match v
    case Arr(elems) => SerializeElemsIsPlain(elems);
    case Obj(fields) =>
      SerializeFieldsIsPlain(fields);
      PlainFieldsSort(NormalFields(fields));
    case _ =>
  }

  lemma {:induction false} SerializeElemsIsPlain(elems: seq<Elem>)
    ensures SerializeElems(elems).Some? <==> forall e | e in elems && e.Item? :: Accepted(e.value)
    ensures SerializeElems(elems).Some? ==> SerializeElems(elems).value == PlainElems(NormalElems(elems))
    decreases elems, 0
  {
    if elems != [] {
      var e := elems[0];
      if e.Item? {
        ItemIsSmaller(elems, 0);
        SerializeIsPlainNormal(e.value);
      }
      SerializeElemsIsPlain(elems[1..]);
      assert forall x :: x in elems <==> x == e || x in elems[1..];
    }
  }

  lemma ItemIsSmaller(elems: seq<Elem>, i: nat)
    requires i < |elems| && elems[i].Item?
    ensures elems decreases to elems[i].value
  {
    assert elems decreases to elems[i];
  }

  lemma {:induction false} SerializeFieldsIsPlain(fields: seq<Entry<Json>>)
    ensures SerializeFields(fields).Some? <==> forall f | f in fields :: Accepted(f.value)
    ensures SerializeFields(fields).Some? ==> SerializeFields(fields).value == PlainFields(NormalFields(fields))
    decreases fields, 0
  {
    if fields != [] {
      SerializeIsPlainNormal(fields[0].value);
      SerializeFieldsIsPlain(fields[1..]);
      assert forall x :: x in fields <==> x == fields[0] || x in fields[1..];
    }
  }

  // ----- Reading numbers back -----

  lemma {:induction false} NatRoundTrip(n: nat)
    ensures IsIntPart(PrintNat(n)) && NatValue(PrintNat(n)) == n
    ensures n > 0 ==> PrintNat(n)[0] != ZERO
  {
    if n < 10 {
      assert PrintNat(n)[..0] == [];
    } else {
      NatRoundTrip(n / 10);
      var t := PrintNat(n / 10);
      assert (t + [ZERO + n % 10])[..|t|] == t;
    }
  }

  lemma IntRoundTrip(i: int)
    ensures IsIntegerToken(PrintInt(i)) && IntegerOf(PrintInt(i)) == i
    ensures PrintInt(i) != [MINUS, ZERO]
    ensures forall k | 0 <= k < |PrintInt(i)| :: IsNumberUnit(PrintInt(i)[k])
  {
    var magnitude: nat := if i < 0 then -i else i;
    NatRoundTrip(magnitude);
    var t := PrintNat(magnitude);
    assert IsDigit(t[0]);
    if i < 0 {
      assert ([MINUS] + t)[1..] == t;
    }
  }

  predicate Stops(rest: Text) {
    rest == [] || !IsNumberUnit(rest[0])
  }

  lemma {:induction false} NumberRunOf(token: Text, rest: Text)
    requires forall k | 0 <= k < |token| :: IsNumberUnit(token[k])
    requires Stops(rest)
    ensures NumberRun(token + rest) == |token|
  {
    if token == [] {
      assert token + rest == rest;
    } else {
      assert (token + rest)[1..] == token[1..] + rest;
      NumberRunOf(token[1..], rest);
    }
  }

  lemma ReadNumber(n: Number, rest: Text)
    requires PrintNumber(n).Some? && Proper(Num(n)) && Stops(rest)
    ensures Plain(Num(n)) != [] && IsNumberUnit(Plain(Num(n))[0])
    ensures Read(Plain(Num(n)) + rest) == Some(Reading(Num(n), rest))
  {
    match n {
      case Integer(i) => IntRoundTrip(i);
      case Fraction(text) => FractionStarts(text);
    }
    ReadNumberToken(Plain(Num(n)), n, rest);
  }

  lemma ReadNumberToken(token: Text, n: Number, rest: Text)
    requires token != [] && (forall k | 0 <= k < |token| :: IsNumberUnit(token[k])) && Stops(rest)
    requires NumberOf(token) == Some(n)
    ensures Read(token + rest) == Some(Reading(Num(n), rest))
  {
    var t := token + rest;
    NumberRunOf(token, rest);
    assert t[..|token|] == token && t[|token|..] == rest;
    assert t[0] == token[0] && IsNumberUnit(token[0]);
    StartsFirst(t, NULL_TEXT);
    StartsFirst(t, TRUE_TEXT);
    StartsFirst(t, FALSE_TEXT);
  }

  lemma FractionStarts(text: Text)
    requires IsFractionToken(text) && !IsIntegerToken(text)
    ensures text != [] && NumberOf(text) == Some(Fraction(text))
  {
    assert Unsigned([MINUS, ZERO]) == [ZERO];
  }

  lemma StartsFirst(t: Text, prefix: Text)
    requires prefix != [] && t != []
    ensures Starts(t, prefix) ==> t[0] == prefix[0]
  {
    assert |prefix| <= |t| ==> t[..|prefix|][0] == t[0];
  }

  // ----- Reading strings back -----

  lemma HexDigitRoundTrip(d: nat)
    requires d < 16
    ensures HexValue(HexDigit(d)) == Some(d)
  {
  }

  lemma SplitHex(n: nat)
    ensures n == 16 * (n / 16) + n % 16 && n / 16 / 16 == n / 256 && n / 256 / 16 == n / 4096
  {
  }

  lemma HexRoundTrip(u: Unit)
    ensures HexUnit(UnicodeEscape(u)[2..6]) == Some(u)
  {
    var a, b, c, d := u / 4096, u / 256 % 16, u / 16 % 16, u % 16;
    HexDigitRoundTrip(a);
    HexDigitRoundTrip(b);
    HexDigitRoundTrip(c);
    HexDigitRoundTrip(d);
    assert UnicodeEscape(u)[2..6] == [HexDigit(a), HexDigit(b), HexDigit(c), HexDigit(d)];
    SplitHex(u);
    SplitHex(u / 16);
    SplitHex(u / 256);
    assert u == 4096 * a + 256 * b + 16 * c + d;
  }

  lemma ReadEscapedUnit(u: Unit, rest: Text)
    ensures ReadChars(EscapeUnit(u) + rest) == PrependUnit(Some(u), ReadChars(rest))
  {
    var t := EscapeUnit(u) + rest;
    if |EscapeUnit(u)| == 6 {
      HexRoundTrip(u);
      assert t[2..6] == UnicodeEscape(u)[2..6] && t[6..] == rest;
    } else if |EscapeUnit(u)| == 2 {
      assert t[2..] == rest;
    } else {
      assert t[1..] == rest;
    }
  }

  lemma ReadRawUnit(u: Unit, rest: Text)
    requires u >= 0x20 && u != QUOTE && u != BACKSLASH
    ensures ReadChars([u] + rest) == PrependUnit(Some(u), ReadChars(rest))
  {
    assert ([u] + rest)[1..] == rest;
  }

  lemma Assoc(a: Text, b: Text, c: Text)
    ensures (a + b) + c == a + (b + c)
  {
  }

  lemma PrependOne(s: Text, t: Text, rest: Text)
    requires s != [] && ReadChars(t) == Some(Reading(s[1..], rest))
    ensures PrependUnit(Some(s[0]), ReadChars(t)) == Some(Reading(s, rest))
  {
    assert [s[0]] + s[1..] == s;
  }

  lemma {:induction false} ReadEscaped(s: Text, rest: Text)
    ensures ReadChars(Escape(s) + ([QUOTE] + rest)) == Some(Reading(s, rest))
  {
    var tail := [QUOTE] + rest;
    if s == [] {
      assert Escape(s) + tail == tail && tail[1..] == rest;
    } else if Width(s) == 2 {
      ReadEscaped(s[2..], rest);
      ReadEscapedPair(s, Escape(s[2..]) + tail, rest);
      Assoc(s[..2], Escape(s[2..]), tail);
    } else {
      ReadEscaped(s[1..], rest);
      var more := Escape(s[1..]) + tail;
      ReadEscapedUnit(s[0], more);
      PrependOne(s, more, rest);
      Assoc(EscapeUnit(s[0]), Escape(s[1..]), tail);
    }
  }

  lemma ReadEscapedPair(s: Text, more: Text, rest: Text)
    requires |s| >= 2 && Width(s) == 2
    requires ReadChars(more) == Some(Reading(s[2..], rest))
    ensures ReadChars(s[..2] + more) == Some(Reading(s, rest))
  {
    assert s[1..][1..] == s[2..] && s[1..][0] == s[1];
    ReadRawUnit(s[1], more);
    PrependOne(s[1..], more, rest);
    ReadRawUnit(s[0], [s[1]] + more);
    PrependOne(s, [s[1]] + more, rest);
    assert s[..2] + more == [s[0]] + ([s[1]] + more);
  }

  // ----- Reading values back -----

  /** Reading undoes ordinary printing of accepted values without holes, whatever follows the text. */
  lemma {:induction false} ReadPlain(v: Json, rest: Text)
    requires Accepted(v) && Dense(v) && Proper(v) && Stops(rest)
    ensures Read(Plain(v) + rest) == Some(Reading(v, rest))
    ensures Plain(v) != [] && Plain(v)[0] != RBRACKET
    decreases v, 2
  {
    match v
    case Null => ReadLiteral(v, rest);
    case Bool(b) => ReadLiteral(v, rest);
    case Num(n) => ReadNumber(n, rest);
    case Str(s) => ReadString(s, rest);
    case Arr(elems) =>
      if elems == [] {
        ReadEmpty(rest);
      } else {
        ReadPlainElems(elems, rest);
        ReadArray(JoinWithCommas(PlainElems(elems)), elems, rest);
      }
    case Obj(fields) =>
      if fields == [] {
        ReadEmpty(rest);
      } else {
        ReadPlainFields(fields, rest);
        ReadObject(JoinWithCommas(Members(PlainFields(fields))), fields, rest);
      }
  }

  lemma ReadLiteral(v: Json, rest: Text)
    requires v.Null? || v.Bool?
    ensures Read(Plain(v) + rest) == Some(Reading(v, rest))
  {
    var t := Plain(v) + rest;
    StartsFirst(t, NULL_TEXT);
    StartsFirst(t, TRUE_TEXT);
    assert t[..|Plain(v)|] == Plain(v) && t[|Plain(v)|..] == rest;
  }

  lemma ReadString(s: Text, rest: Text)
    ensures Read(Plain(Str(s)) + rest) == Some(Reading(Str(s), rest))
  {
    ReadEscaped(s, rest);
    assert (Quote(s) + rest)[1..] == Escape(s) + ([QUOTE] + rest);
  }

  lemma ReadEmpty(rest: Text)
    ensures Read(Plain(Arr([])) + rest) == Some(Reading(Arr([]), rest))
    ensures Read(Plain(Obj([])) + rest) == Some(Reading(Obj([]), rest))
  {
    assert Plain(Arr([])) == [LBRACKET, RBRACKET] && Plain(Obj([])) == [LBRACE, RBRACE];
    assert ([LBRACKET, RBRACKET] + rest)[2..] == rest;
    assert ([LBRACE, RBRACE] + rest)[2..] == rest;
  }

  lemma ReadArray(inner: Text, elems: seq<Elem>, rest: Text)
    requires inner != [] && inner[0] != RBRACKET
    requires ReadElems(inner + ([RBRACKET] + rest)) == Some(Reading(elems, rest))
    ensures Read([LBRACKET] + inner + [RBRACKET] + rest) == Some(Reading(Arr(elems), rest))
  {
    assert ([LBRACKET] + inner + [RBRACKET] + rest)[1..] == inner + ([RBRACKET] + rest);
  }

  lemma ReadObject(inner: Text, fields: seq<Entry<Json>>, rest: Text)
    requires inner != [] && inner[0] == QUOTE
    requires ReadFields(inner + ([RBRACE] + rest)) == Some(Reading(fields, rest))
    ensures Read([LBRACE] + inner + [RBRACE] + rest) == Some(Reading(Obj(fields), rest))
  {
    assert ([LBRACE] + inner + [RBRACE] + rest)[1..] == inner + ([RBRACE] + rest);
  }

  lemma ReadLastElem(t: Text, v: Json, rest: Text)
    requires Read(t) == Some(Reading(v, [RBRACKET] + rest))
    ensures ReadElems(t) == Some(Reading([Item(v)], rest))
  {
    assert ([RBRACKET] + rest)[1..] == rest;
  }

  lemma ReadNextElem(t: Text, v: Json, more: Text, elems: seq<Elem>, rest: Text)
    requires Read(t) == Some(Reading(v, [COMMA] + more))
    requires ReadElems(more) == Some(Reading(elems, rest))
    ensures ReadElems(t) == Some(Reading([Item(v)] + elems, rest))
  {
    assert ([COMMA] + more)[1..] == more;
  }

  lemma JoinCons(first: Text, others: seq<Text>)
    requires others != []
    ensures JoinWithCommas([first] + others) == first + [COMMA] + JoinWithCommas(others)
  {
    assert ([first] + others)[1..] == others;
  }

  lemma {:induction false} ReadPlainElems(elems: seq<Elem>, rest: Text)
    requires elems != []
    requires forall e | e in elems :: e.Item? && Accepted(e.value) && Dense(e.value) && Proper(e.value)
    ensures var text := JoinWithCommas(PlainElems(elems));
            && text != [] && text[0] != RBRACKET
            && ReadElems(text + ([RBRACKET] + rest)) == Some(Reading(elems, rest))
    decreases elems, 1
  {
    var first, others := elems[0].value, elems[1..];
    ItemIsSmaller(elems, 0);
    assert elems == [Item(first)] + others;
    assert PlainElems(elems) == [Plain(first)] + PlainElems(others);
    var tail := [RBRACKET] + rest;
    if others == [] {
      assert elems == [Item(first)] && PlainElems(elems) == [Plain(first)];
      ReadPlain(first, tail);
      ReadLastElem(Plain(first) + tail, first, rest);
    } else {
      var text := JoinWithCommas(PlainElems(others));
      ReadPlainElems(others, rest);
      ReadPlain(first, [COMMA] + (text + tail));
      ReadNextElem(Plain(first) + ([COMMA] + (text + tail)), first, text + tail, others, rest);
      JoinCons(Plain(first), PlainElems(others));
      Assoc(Plain(first) + [COMMA], text, tail);
      Assoc(Plain(first), [COMMA], text + tail);
    }
  }

  lemma ReadLastField(t: Text, f: Entry<Json>, rest: Text)
    requires ReadsField(t, f, [RBRACE] + rest)
    ensures ReadFields(t) == Some(Reading([f], rest))
  {
    assert ([RBRACE] + rest)[1..] == rest;
  }

  lemma ReadNextField(t: Text, f: Entry<Json>, more: Text, fields: seq<Entry<Json>>, rest: Text)
    requires ReadsField(t, f, [COMMA] + more)
    requires ReadFields(more) == Some(Reading(fields, rest)) && !HasKey(fields, f.key)
    ensures ReadFields(t) == Some(Reading([f] + fields, rest))
  {
    assert ([COMMA] + more)[1..] == more;
  }

  /** The text `t` starts with the member `f`, after which `after` is left. */
  predicate ReadsField(t: Text, f: Entry<Json>, after: Text) {
    && t != [] && t[0] == QUOTE
    && ReadChars(t[1..]).Some?
    && var key := ReadChars(t[1..]).value;
       && key.value == f.key
       && key.rest != [] && key.rest[0] == COLON
       && Read(key.rest[1..]) == Some(Reading(f.value, after))
  }

  lemma {:induction false} ReadPlainField(f: Entry<Json>, after: Text)
    requires Accepted(f.value) && Dense(f.value) && Proper(f.value) && Stops(after)
    ensures ReadsField(Quote(f.key) + [COLON] + Plain(f.value) + after, f, after)
    decreases f, 0
  {
    ReadPlain(f.value, after);
    MemberText(f, Plain(f.value), after);
  }

  lemma MemberText(f: Entry<Json>, value: Text, after: Text)
    requires Read(value + after) == Some(Reading(f.value, after))
    ensures ReadsField(Quote(f.key) + [COLON] + value + after, f, after)
  {
    MemberShape(f.key, value, after);
    ReadEscaped(f.key, [COLON] + (value + after));
  }

  lemma MemberShape(key: Text, value: Text, after: Text)
    ensures var t := Quote(key) + [COLON] + value + after;
            && t != [] && t[0] == QUOTE
            && t[1..] == Escape(key) + ([QUOTE] + ([COLON] + (value + after)))
            && ([COLON] + (value + after))[1..] == value + after
  {
  }

  lemma {:induction false} ReadPlainFields(fields: seq<Entry<Json>>, rest: Text)
    requires fields != [] && DistinctKeys(fields)
    requires forall f | f in fields :: Accepted(f.value) && Dense(f.value) && Proper(f.value)
    ensures var text := JoinWithCommas(Members(PlainFields(fields)));
            && text != [] && text[0] == QUOTE
            && ReadFields(text + ([RBRACE] + rest)) == Some(Reading(fields, rest))
    decreases fields, 1
  {
    var f, others := fields[0], fields[1..];
    var member := Quote(f.key) + [COLON] + Plain(f.value);
    assert fields == [f] + others;
    MembersCons(f, others);
    var tail := [RBRACE] + rest;
    if others == [] {
      assert fields == [f] && Members(PlainFields(fields)) == [member];
      ReadPlainField(f, tail);
      ReadLastField(member + tail, f, rest);
    } else {
      var text := JoinWithCommas(Members(PlainFields(others)));
      ReadPlainFields(others, rest);
      ReadPlainField(f, [COMMA] + (text + tail));
      ReadNextField(member + ([COMMA] + (text + tail)), f, text + tail, others, rest);
      JoinCons(member, Members(PlainFields(others)));
      Assoc(member + [COMMA], text, tail);
      Assoc(member, [COMMA], text + tail);
    }
  }

  lemma MembersCons(f: Entry<Json>, others: seq<Entry<Json>>)
    ensures Members(PlainFields([f] + others))
         == [Quote(f.key) + [COLON] + Plain(f.value)] + Members(PlainFields(others))
  {
    assert ([f] + others)[1..] == others;
    assert ([PlainField(f)] + PlainFields(others))[1..] == PlainFields(others);
  }

  // ----- Key ordering keeps the value -----

  lemma {:induction false} NormalElemsAt(elems: seq<Elem>, i: nat)
    requires i < |elems|
    ensures NormalElems(elems)[i] == NormalElem(elems[i])
  {
    if i > 0 {
      NormalElemsAt(elems[1..], i - 1);
    }
  }

  lemma {:induction false} NormalFieldsAt(fields: seq<Entry<Json>>, i: nat)
    requires i < |fields|
    ensures NormalFields(fields)[i] == Entry(fields[i].key, Normal(fields[i].value))
  {
    if i > 0 {
      NormalFieldsAt(fields[1..], i - 1);
    }
  }

  lemma NormalFieldMember(fields: seq<Entry<Json>>, e: Entry<Json>)
    ensures e in NormalFields(fields) <==> exists f | f in fields :: e == Entry(f.key, Normal(f.value))
  {
    if e in NormalFields(fields) {
      var i :| 0 <= i < |fields| && NormalFields(fields)[i] == e;
      NormalFieldsAt(fields, i);
      assert fields[i] in fields;
    }
    if f :| f in fields && e == Entry(f.key, Normal(f.value)) {
      var i :| 0 <= i < |fields| && fields[i] == f;
      NormalFieldsAt(fields, i);
      assert NormalFields(fields)[i] in NormalFields(fields);
    }
  }

  lemma NormalFieldsDistinct(fields: seq<Entry<Json>>)
    requires DistinctKeys(fields)
    ensures DistinctKeys(NormalFields(fields)) && DistinctKeys(Sort(NormalFields(fields)))
  {
    forall i, j | 0 <= i < j < |fields|
      ensures NormalFields(fields)[i].key != NormalFields(fields)[j].key
    {
      NormalFieldsAt(fields, i);
      NormalFieldsAt(fields, j);
    }
    SortAscends(NormalFields(fields));
    AscendingIsDistinct(Sort(NormalFields(fields)));
  }

  lemma AscendingIsDistinct<V>(xs: seq<Entry<V>>)
    requires Ascending(xs)
    ensures DistinctKeys(xs)
  {
    forall i, j | 0 <= i < j < |xs|
      ensures xs[i].key != xs[j].key
    {
      KeyOrderIsTotal(xs[i].key, xs[i].key);
    }
  }

  /** A member of the sorted, normalized fields is some original member with its value normalized. */
  lemma SortedMemberOrigin(fields: seq<Entry<Json>>, e: Entry<Json>) returns (f: Entry<Json>)
    requires e in Sort(NormalFields(fields))
    ensures f in fields && e == Entry(f.key, Normal(f.value))
  {
    SortMember(NormalFields(fields), e);
    NormalFieldMember(fields, e);
    f :| f in fields && e == Entry(f.key, Normal(f.value));
  }

  lemma SortedMemberImage(fields: seq<Entry<Json>>, f: Entry<Json>)
    requires f in fields
    ensures Entry(f.key, Normal(f.value)) in Sort(NormalFields(fields))
  {
    var e := Entry(f.key, Normal(f.value));
    NormalFieldMember(fields, e);
    SortMember(NormalFields(fields), e);
  }

  lemma {:induction false} NormalIsAccepted(v: Json)
    requires Proper(v) && Accepted(v)
    ensures Proper(Normal(v)) && Accepted(Normal(v))
    ensures Dense(Normal(v)) <==> Dense(v)
    decreases v
  {
    match v
    case Arr(elems) =>
      forall e | e in elems && e.Item?
        ensures Proper(Normal(e.value)) && Accepted(Normal(e.value)) && (Dense(Normal(e.value)) <==> Dense(e.value))
      {
        NormalIsAccepted(e.value);
      }
      NormalElemMembers(elems);
    case Obj(fields) =>
      forall f | f in fields
        ensures Proper(Normal(f.value)) && Accepted(Normal(f.value)) && (Dense(Normal(f.value)) <==> Dense(f.value))
      {
        NormalIsAccepted(f.value);
      }
      NormalFieldsDistinct(fields);
      forall e | e in Sort(NormalFields(fields))
        ensures exists f | f in fields :: e.value == Normal(f.value)
      {
        var f := SortedMemberOrigin(fields, e);
      }
      forall f | f in fields
        ensures exists e | e in Sort(NormalFields(fields)) :: e.value == Normal(f.value)
      {
        SortedMemberImage(fields, f);
        assert Entry(f.key, Normal(f.value)).value == Normal(f.value);
      }
    case _ =>
  }

  lemma NormalElemMembers(elems: seq<Elem>)
    ensures forall e | e in NormalElems(elems) :: exists x | x in elems :: e == NormalElem(x)
    ensures forall x | x in elems :: NormalElem(x) in NormalElems(elems)
  {
    forall e | e in NormalElems(elems)
      ensures exists x | x in elems :: e == NormalElem(x)
    {
      var i :| 0 <= i < |elems| && NormalElems(elems)[i] == e;
      NormalElemsAt(elems, i);
      assert elems[i] in elems;
    }
    forall x | x in elems
      ensures NormalElem(x) in NormalElems(elems)
    {
      var i :| 0 <= i < |elems| && elems[i] == x;
      NormalElemsAt(elems, i);
    }
  }

  // ----- Main results -----

  /**
   Printing then reading gives the value back, up to key order, exactly when no array in it is
   sparse. The condition is on the input alone.
   */
  lemma RoundTrip(v: Json)
    requires Proper(v) && Accepted(v)
    ensures Serialize(v).Some?
    ensures Parse(Serialize(v).value) == Some(Normal(v)) <==> Dense(v)
  {
    SerializeIsPlainNormal(v);
    NormalIsAccepted(v);
    var t := Plain(Normal(v));
    if Dense(v) {
      ReadPlain(Normal(v), []);
      assert t + [] == t;
    }
    ReadIsDense(t);
  }

  /** A sparse array prints like an empty one: two different accepted values, one text. */
  lemma SparseArrayCollides()
    ensures Accepted(Arr([Hole])) && Accepted(Arr([]))
    ensures Serialize(Arr([Hole])) == Serialize(Arr([])) == Some([LBRACKET, RBRACKET])
    ensures !Same(Arr([Hole]), Arr([]))
  {
    var sparse: seq<Elem> := [Hole];
    assert sparse[1..] == [] && SerializeElems(sparse[1..]) == Some([]);
    assert SerializeElem(sparse[0]) == Some([]);
    var parts: seq<Text> := [[]];
    assert parts + [] == parts;
    assert SerializeElems(sparse) == Some(parts) && JoinWithCommas(parts) == [];
    var brackets: Text := [LBRACKET] + [] + [RBRACKET];
    assert brackets == [LBRACKET, RBRACKET];
    assert Serialize(Arr(sparse)) == Some(brackets);
    assert Serialize(Arr([])) == Some(brackets);
  }

  /** Two values print alike exactly when they differ at most in the order of object members. */
  lemma {:induction false} NormalDecidesSame(v: Json, w: Json)
    requires Proper(v) && Proper(w)
    ensures Normal(v) == Normal(w) <==> Same(v, w)
    decreases v
  {
    if v.Arr? && w.Arr? {
      ElemsDecideSame(v, w);
    } else if v.Obj? && w.Obj? {
      FieldsDecideSame(v, w);
    }
  }

  lemma {:induction false} ElemsDecideSame(v: Json, w: Json)
    requires v.Arr? && w.Arr? && Proper(v) && Proper(w)
    ensures Normal(v) == Normal(w) <==> Same(v, w)
    decreases v, 0
  {
    var xs, ys := v.elems, w.elems;
    if |xs| == |ys| {
      forall i | 0 <= i < |xs|
        ensures NormalElems(xs)[i] == NormalElem(xs[i]) && NormalElems(ys)[i] == NormalElem(ys[i])
        ensures xs[i].Item? && ys[i].Item? ==> (Normal(xs[i].value) == Normal(ys[i].value) <==> Same(xs[i].value, ys[i].value))
      {
        NormalElemsAt(xs, i);
        NormalElemsAt(ys, i);
        if xs[i].Item? && ys[i].Item? {
          assert xs[i] in xs && ys[i] in ys;
          NormalDecidesSame(xs[i].value, ys[i].value);
        }
      }
      if Same(v, w) {
        assert forall i | 0 <= i < |xs| :: NormalElems(xs)[i] == NormalElems(ys)[i];
        assert NormalElems(xs) == NormalElems(ys);
      }
      if Normal(v) == Normal(w) {
        assert NormalElems(xs) == NormalElems(ys);
      }
    } else {
      assert |NormalElems(xs)| != |NormalElems(ys)|;
    }
  }

  lemma {:induction false} FieldsDecideSame(v: Json, w: Json)
    requires v.Obj? && w.Obj? && Proper(v) && Proper(w)
    ensures Normal(v) == Normal(w) <==> Same(v, w)
    decreases v, 0
  {
    var fs, gs := v.fields, w.fields;
    forall f, g | f in fs && g in gs
      ensures Normal(f.value) == Normal(g.value) <==> Same(f.value, g.value)
    {
      NormalDecidesSame(f.value, g.value);
    }
    if Same(v, w) {
      SameFieldsSortAlike(fs, gs);
    }
    if Normal(v) == Normal(w) {
      SortAlikeFieldsSame(fs, gs);
    }
  }

  lemma SortAlikeFieldsSame(fs: seq<Entry<Json>>, gs: seq<Entry<Json>>)
    requires forall f, g | f in fs && g in gs :: Normal(f.value) == Normal(g.value) <==> Same(f.value, g.value)
    requires Sort(NormalFields(fs)) == Sort(NormalFields(gs))
    ensures forall f | f in fs :: exists g | g in gs :: f.key == g.key && Same(f.value, g.value)
    ensures Keys(fs) == Keys(gs)
  {
    forall f | f in fs
      ensures exists g | g in gs :: f.key == g.key && Same(f.value, g.value)
    {
      SortedMemberImage(fs, f);
      var g := SortedMemberOrigin(gs, Entry(f.key, Normal(f.value)));
    }
    forall key
      ensures key in Keys(fs) <==> key in Keys(gs)
    {
      SortedKeyShared(fs, gs, key);
      SortedKeyShared(gs, fs, key);
    }
  }

  lemma SortedKeyShared(fs: seq<Entry<Json>>, gs: seq<Entry<Json>>, key: Text)
    requires Sort(NormalFields(fs)) == Sort(NormalFields(gs))
    ensures key in Keys(fs) ==> key in Keys(gs)
  {
    KeyHasMember(fs, key);
    KeyHasMember(gs, key);
    if key in Keys(fs) {
      var f :| f in fs && f.key == key;
      SortedMemberImage(fs, f);
      var g := SortedMemberOrigin(gs, Entry(f.key, Normal(f.value)));
    }
  }

  lemma SameFieldsSortAlike(fs: seq<Entry<Json>>, gs: seq<Entry<Json>>)
    requires DistinctKeys(fs) && DistinctKeys(gs)
    requires forall f | f in fs :: exists g | g in gs :: f.key == g.key && Same(f.value, g.value)
    requires Keys(fs) == Keys(gs)
    requires forall f, g | f in fs && g in gs :: Normal(f.value) == Normal(g.value) <==> Same(f.value, g.value)
    ensures Sort(NormalFields(fs)) == Sort(NormalFields(gs))
  {
    NormalFieldsDistinct(fs);
    NormalFieldsDistinct(gs);
    forall e
      ensures e in NormalFields(fs) <==> e in NormalFields(gs)
    {
      NormalFieldMember(fs, e);
      NormalFieldMember(gs, e);
      if f :| f in fs && e == Entry(f.key, Normal(f.value)) {
        var g :| g in gs && f.key == g.key && Same(f.value, g.value);
        assert e == Entry(g.key, Normal(g.value));
      }
      if g :| g in gs && e == Entry(g.key, Normal(g.value)) {
        KeyHasMember(gs, g.key);
        KeyHasMember(fs, g.key);
        var f :| f in fs && f.key == g.key;
        var g' :| g' in gs && f.key == g'.key && Same(f.value, g'.value);
        assert g' == g;
        assert e == Entry(f.key, Normal(f.value));
      }
    }
    SortForgetsOrder(NormalFields(fs), NormalFields(gs));
  }

  /** Equal canonical texts mean equal values, and values differing only in key order print identically. */
  lemma EqualTextsMeanSameValues(v: Json, w: Json)
    requires Proper(v) && Accepted(v) && Dense(v)
    requires Proper(w) && Accepted(w) && Dense(w)
    ensures Serialize(v) == Serialize(w) <==> Same(v, w)
  {
    RoundTrip(v);
    RoundTrip(w);
    SerializeIsPlainNormal(v);
    SerializeIsPlainNormal(w);
    NormalDecidesSame(v, w);
  }

  // ----- The text is well-formed UTF-16, so hashing its UTF-8 bytes loses nothing -----

  predicate NoSurrogates(t: Text) {
    forall i | 0 <= i < |t| :: !IsHigh(t[i]) && !IsLow(t[i])
  }

  lemma {:induction false} NoSurrogatesWellFormed(t: Text)
    requires NoSurrogates(t)
    ensures WellFormed(t)
  {
    WellFormedIsPaired(t);
  }

  lemma {:induction false} EscapeWellFormed(s: Text)
    ensures WellFormed(Escape(s))
  {
    if s == [] {
    } else if Width(s) == 2 {
      EscapeWellFormed(s[2..]);
      var pair := s[..2];
      assert pair[2..] == [];
      assert WellFormed(pair);
      WellFormedConcat(pair, Escape(s[2..]));
    } else {
      EscapeWellFormed(s[1..]);
      NoSurrogatesWellFormed(EscapeUnit(s[0]));
      WellFormedConcat(EscapeUnit(s[0]), Escape(s[1..]));
    }
  }

  lemma QuoteWellFormed(s: Text)
    ensures WellFormed(Quote(s))
  {
    EscapeWellFormed(s);
    NoSurrogatesWellFormed([QUOTE]);
    WellFormedConcat([QUOTE], Escape(s));
    WellFormedConcat([QUOTE] + Escape(s), [QUOTE]);
  }

  lemma {:induction false} JoinWellFormed(parts: seq<Text>)
    requires forall p | p in parts :: WellFormed(p)
    ensures WellFormed(JoinWithCommas(parts))
  {
    if |parts| > 1 {
      assert forall p | p in parts[1..] :: p in parts;
      JoinWellFormed(parts[1..]);
      NoSurrogatesWellFormed([COMMA]);
      assert parts[0] in parts;
      WellFormedConcat(parts[0], [COMMA]);
      WellFormedConcat(parts[0] + [COMMA], JoinWithCommas(parts[1..]));
    }
  }

  lemma Bracketed(open: Unit, inner: Text, close: Unit)
    requires WellFormed(inner) && NoSurrogates([open]) && NoSurrogates([close])
    ensures WellFormed([open] + inner + [close])
  {
    NoSurrogatesWellFormed([open]);
    NoSurrogatesWellFormed([close]);
    WellFormedConcat([open], inner);
    WellFormedConcat([open] + inner, [close]);
  }

  /** Whatever strings a value holds, lone surrogates included, its ordinary text is well formed. */
  lemma {:induction false} PlainWellFormed(v: Json)
    requires Proper(v)
    ensures WellFormed(Plain(v))
    decreases v, 1
  {
    match v
    case Null => NoSurrogatesWellFormed(NULL_TEXT);
    case Bool(b) => NoSurrogatesWellFormed(TRUE_TEXT); NoSurrogatesWellFormed(FALSE_TEXT);
    case Num(n) =>
      if n.Integer? { IntRoundTrip(n.i); }
      NoSurrogatesWellFormed(Plain(v));
    case Str(s) => QuoteWellFormed(s);
    case Arr(elems) =>
      PlainElemsWellFormed(elems);
      JoinWellFormed(PlainElems(elems));
      Bracketed(LBRACKET, JoinWithCommas(PlainElems(elems)), RBRACKET);
    case Obj(fields) =>
      PlainFieldsWellFormed(fields);
      JoinWellFormed(Members(PlainFields(fields)));
      Bracketed(LBRACE, JoinWithCommas(Members(PlainFields(fields))), RBRACE);
    case NotJson =>
  }

  lemma {:induction false} PlainElemsWellFormed(elems: seq<Elem>)
    requires forall e | e in elems && e.Item? :: Proper(e.value)
    ensures forall p | p in PlainElems(elems) :: WellFormed(p)
    decreases elems, 0
  {
    if elems != [] {
      assert elems[0] in elems && forall e | e in elems[1..] :: e in elems;
      if elems[0].Item? {
        ItemIsSmaller(elems, 0);
        PlainWellFormed(elems[0].value);
      }
      PlainElemsWellFormed(elems[1..]);
    }
  }

  lemma {:induction false} PlainFieldsWellFormed(fields: seq<Entry<Json>>)
    requires forall f | f in fields :: Proper(f.value)
    ensures forall p | p in Members(PlainFields(fields)) :: WellFormed(p)
    decreases fields, 0
  {
    if fields != [] {
      var f := fields[0];
      assert f in fields && forall g | g in fields[1..] :: g in fields;
      PlainWellFormed(f.value);
      PlainFieldsWellFormed(fields[1..]);
      QuoteWellFormed(f.key);
      NoSurrogatesWellFormed([COLON]);
      WellFormedConcat(Quote(f.key), [COLON]);
      WellFormedConcat(Quote(f.key) + [COLON], Plain(f.value));
      assert fields == [f] + fields[1..];
      MembersCons(f, fields[1..]);
    }
  }

  lemma SerializedTextWellFormed(v: Json)
    requires Proper(v) && Accepted(v)
    ensures Serialize(v).Some? && WellFormed(Serialize(v).value)
  {
    SerializeIsPlainNormal(v);
    NormalIsAccepted(v);
    PlainWellFormed(Normal(v));
  }
}
