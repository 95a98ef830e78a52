/**
 Which of the many JSON texts for a value the serializer prints: no text that reads as the value is
 shorter, and those of the same length differ only by writing hexadecimal digits in upper case.
 */
module ShortestText {
  import opened Utf16
  import opened Wrappers
  import opened KeyOrder
  import opened CanonicalJson
  import opened JsonReader
  import opened CanonicalRoundTrip

  /** The same unit, or the upper-case form of the hexadecimal digit `u`. */
  predicate SameOrRaised(u: Unit, v: Unit) {
    v == u || (0x41 <= v <= 0x46 && u == v + 0x20)
  }

  /** `p` is shorter than `t`, or as long and the same up to hexadecimal digits raised in `t`. */
  predicate NoLonger(p: Text, t: Text) {
    |p| < |t| || (|p| == |t| && forall i | 0 <= i < |t| :: SameOrRaised(p[i], t[i]))
  }

  /** What `t` holds before `rest` is no better than `p`. */
  predicate Spent(p: Text, t: Text, rest: Text) {
    |rest| <= |t| && t[|t| - |rest|..] == rest && NoLonger(p, t[..|t| - |rest|]) && WellFormed(rest)
  }

  lemma SpentTwice(p: Text, q: Text, t: Text, mid: Text, rest: Text)
    requires Spent(p, t, mid) && Spent(q, mid, rest)
    ensures Spent(p + q, t, rest)
  {
    var a, b := t[..|t| - |mid|], mid[..|mid| - |rest|];
    assert t == a + mid && mid == b + rest;
    assert t[..|t| - |rest|] == a + b;
    NoLongerConcat(p, q, a, b);
  }

  lemma NoLongerConcat(p: Text, q: Text, a: Text, b: Text)
    requires NoLonger(p, a) && NoLonger(q, b)
    ensures NoLonger(p + q, a + b)
  {
  }

  lemma SpentShorter(p: Text, q: Text, t: Text, rest: Text)
    requires Spent(p, t, rest) && |q| < |p|
    ensures Spent(q, t, rest)
  {
  }

  /** Units that are no surrogates can be taken off the front of a well-formed text. */
  lemma TakenOff(p: Text, t: Text, n: nat)
    requires WellFormed(t) && n <= |t| && NoSurrogates(t[..n]) && NoLonger(p, t[..n])
    ensures Spent(p, t, t[n..])
  {
    NoSurrogatesWellFormed(t[..n]);
    assert t == t[..n] + t[n..];
    SuffixWellFormed(t[..n], t[n..]);
  }

  // ----- Strings -----

  lemma HexIsLowest(d: nat, u: Unit)
    requires HexValue(u) == Some(d)
    ensures d < 16 && SameOrRaised(HexDigit(d), u) && !IsHigh(u) && !IsLow(u)
  {
  }

  lemma HexParts(a: nat, b: nat, c: nat, d: nat)
    requires a < 16 && b < 16 && c < 16 && d < 16
    ensures var n := 4096 * a + 256 * b + 16 * c + d; n / 4096 == a && n / 256 % 16 == b && n / 16 % 16 == c && n % 16 == d
  {
    assert (16 * a + b) % 16 == b;
    assert (16 * (16 * a + b) + c) % 16 == c;
    assert (4096 * a + 256 * b + 16 * c + d) / 256 == 16 * a + b;
    assert (4096 * a + 256 * b + 16 * c + d) / 16 == 16 * (16 * a + b) + c;
  }

  lemma UnicodeEscapeIsNoLonger(t: Text, u: Unit)
    requires |t| >= 6 && t[0] == BACKSLASH && t[1] == LOWER_U && HexUnit(t[2..6]) == Some(u)
    ensures NoLonger(EscapeUnit(u), t[..6]) && NoSurrogates(t[..6])
  {
    var a, b, c, d := HexValue(t[2]).value, HexValue(t[3]).value, HexValue(t[4]).value, HexValue(t[5]).value;
    HexParts(a, b, c, d);
    HexIsLowest(a, t[2]);
    HexIsLowest(b, t[3]);
    HexIsLowest(c, t[4]);
    HexIsLowest(d, t[5]);
  }

  lemma ShortEscapeNoLonger(t: Text, u: Unit)
    requires |t| >= 2 && t[0] == BACKSLASH && ShortEscape(t[1]) == Some(u)
    ensures NoLonger(EscapeUnit(u), t[..2]) && NoSurrogates(t[..2]) && !IsHigh(u) && !IsLow(u)
  {
  }

  /** Escaping unit by unit is never shorter than keeping pairs whole. */
  lemma EscapeFirst(s: Text)
    requires s != []
    ensures Escape(s) == EscapeUnit(s[0]) + Escape(s[1..]) || |Escape(s)| < |EscapeUnit(s[0]) + Escape(s[1..])|
  {
    if Width(s) == 2 {
      assert s[1..][0] == s[1] && s[1..][1..] == s[2..];
    }
  }

  /** A unit read as an escape, or raw and no surrogate, followed by the rest of the string. */
  lemma OneUnit(t: Text, n: nat, s: Text, rest: Text)
    requires WellFormed(t) && 1 <= n <= |t| && s != [] && NoSurrogates(t[..n])
    requires NoLonger(EscapeUnit(s[0]), t[..n])
    requires Spent(Escape(s[1..]) + [QUOTE], t[n..], rest)
    ensures Spent(Escape(s) + [QUOTE], t, rest)
  {
    var p, q := EscapeUnit(s[0]), Escape(s[1..]);
    TakenOff(p, t, n);
    SpentTwice(p, q + [QUOTE], t, t[n..], rest);
    assert p + (q + [QUOTE]) == p + q + [QUOTE];
    EscapeFirst(s);
    if Escape(s) != p + q {
      SpentShorter(p + q + [QUOTE], Escape(s) + [QUOTE], t, rest);
    }
  }

  /** What reading one unit of a string takes off the text. */
  lemma CharsStep(t: Text, s: Text, rest: Text) returns (n: nat)
    requires WellFormed(t) && ReadChars(t) == Some(Reading(s, rest)) && t[0] != QUOTE && !IsHigh(t[0])
    ensures 1 <= n <= |t| && NoSurrogates(t[..n]) && WellFormed(t[n..])
    ensures s != [] && NoLonger(EscapeUnit(s[0]), t[..n]) && ReadChars(t[n..]) == Some(Reading(s[1..], rest))
  {
    if t[0] == BACKSLASH && t[1] == LOWER_U {
      UnicodeEscapeIsNoLonger(t, s[0]);
      n := 6;
    } else if t[0] == BACKSLASH {
      ShortEscapeNoLonger(t, s[0]);
      n := 2;
    } else {
      n := 1;
    }
    TakenOff([], t, n);
  }

  lemma {:induction false} CharsSpent(t: Text, s: Text, rest: Text)
    requires WellFormed(t) && ReadChars(t) == Some(Reading(s, rest))
    ensures Spent(Escape(s) + [QUOTE], t, rest)
    decreases |t|, 1
  {
    if t[0] == QUOTE {
      TakenOff([QUOTE], t, 1);
      assert Escape(s) + [QUOTE] == [QUOTE];
    } else if IsHigh(t[0]) {
      PairSpent(t, s, rest);
    } else {
      var n := CharsStep(t, s, rest);
      CharsSpent(t[n..], s[1..], rest);
      OneUnit(t, n, s, rest);
    }
  }

  lemma {:induction false} PairSpent(t: Text, s: Text, rest: Text)
    requires WellFormed(t) && t != [] && IsHigh(t[0]) && ReadChars(t) == Some(Reading(s, rest))
    ensures Spent(Escape(s) + [QUOTE], t, rest)
    decreases |t|, 0
  {
    assert t[1..][1..] == t[2..];
    var more := ReadChars(t[2..]).value.value;
    assert s == [t[0], t[1]] + more;
    CharsSpent(t[2..], more, rest);
    assert s[..2] == t[..2] && s[2..] == more;
    assert Spent(s[..2], t, t[2..]);
    SpentTwice(s[..2], Escape(more) + [QUOTE], t, t[2..], rest);
    assert s[..2] + (Escape(more) + [QUOTE]) == Escape(s) + [QUOTE];
  }

  // ----- Numbers -----

  /** An integer token has no other spelling. */
  lemma {:induction false} NatSpelledOnce(t: Text)
    requires IsIntPart(t)
    ensures PrintNat(NatValue(t)) == t && (t[0] != ZERO ==> NatValue(t) > 0)
  {
    if |t| == 1 {
      assert t[..0] == [];
    } else {
      var front := t[..|t| - 1];
      NatSpelledOnce(front);
      assert t == front + [t[|t| - 1]];
    }
  }

  lemma IntSpelledOnce(t: Text)
    requires IsIntegerToken(t) && t != [MINUS, ZERO]
    ensures PrintInt(IntegerOf(t)) == t
  {
    var u := Unsigned(t);
    NatSpelledOnce(u);
    if t[0] == MINUS {
      assert t == [MINUS] + u;
    }
  }

  lemma NumberSpent(t: Text, n: nat, number: Number)
    requires WellFormed(t) && 0 < n == NumberRun(t) && NumberOf(t[..n]) == Some(number)
    ensures Spent(Plain(Num(number)), t, t[n..])
  {
    NumberRunUnits(t);
    if number.Integer? {
      IntSpelledOnce(t[..n]);
    }
    TakenOff(Plain(Num(number)), t, n);
  }

  lemma {:induction false} NumberRunUnits(t: Text)
    ensures forall k | 0 <= k < NumberRun(t) :: IsNumberUnit(t[k])
  {
    if t != [] && IsNumberUnit(t[0]) {
      NumberRunUnits(t[1..]);
    }
  }

  // ----- Values -----

  lemma UnitSpent(t: Text)
    requires WellFormed(t) && t != [] && !IsHigh(t[0])
    ensures Spent([t[0]], t, t[1..])
  {
    TakenOff([t[0]], t, 1);
  }

  lemma LiteralSpent(t: Text, literal: Text)
    requires WellFormed(t) && Starts(t, literal) && NoSurrogates(literal)
    ensures Spent(literal, t, t[|literal|..])
  {
    TakenOff(literal, t, |literal|);
  }

  lemma StringSpent(t: Text, s: Text, rest: Text)
    requires WellFormed(t) && t != [] && t[0] == QUOTE && ReadChars(t[1..]) == Some(Reading(s, rest))
    ensures Spent(Quote(s), t, rest)
  {
    UnitSpent(t);
    CharsSpent(t[1..], s, rest);
    SpentTwice([QUOTE], Escape(s) + [QUOTE], t, t[1..], rest);
    assert [QUOTE] + (Escape(s) + [QUOTE]) == Quote(s);
  }

  /** `p` up to `mid`, then one more unit. */
  lemma SpentThenUnit(p: Text, t: Text, mid: Text)
    requires Spent(p, t, mid) && mid != [] && !IsHigh(mid[0])
    ensures Spent(p + [mid[0]], t, mid[1..])
  {
    UnitSpent(mid);
    SpentTwice(p, [mid[0]], t, mid, mid[1..]);
  }

  lemma {:induction false} ValueSpent(t: Text, v: Json, rest: Text)
    requires WellFormed(t) && Read(t) == Some(Reading(v, rest))
    ensures Spent(Plain(v), t, rest)
    decreases |t|, 1
  {
    if t[0] == QUOTE {
      StringSpent(t, v.s, rest);
    } else if t[0] == LBRACKET || t[0] == LBRACE {
      BracketedSpent(t, v, rest);
    } else if Starts(t, NULL_TEXT) {
      LiteralSpent(t, NULL_TEXT);
    } else if Starts(t, TRUE_TEXT) {
      LiteralSpent(t, TRUE_TEXT);
    } else if Starts(t, FALSE_TEXT) {
      LiteralSpent(t, FALSE_TEXT);
    } else {
      NumberSpent(t, NumberRun(t), v.n);
    }
  }

  lemma {:induction false} BracketedSpent(t: Text, v: Json, rest: Text)
    requires WellFormed(t) && t != [] && (t[0] == LBRACKET || t[0] == LBRACE) && Read(t) == Some(Reading(v, rest))
    ensures Spent(Plain(v), t, rest)
    decreases |t|, 0
  {
    UnitSpent(t);
    if t[0] == LBRACKET {
      if t[1] == RBRACKET {
        SpentThenUnit([LBRACKET], t, t[1..]);
        assert Plain(v) == [LBRACKET] + [RBRACKET] && t[1..][1..] == rest;
      } else {
        ElemsSpent(t[1..], v.elems, rest);
        SpentTwice([LBRACKET], JoinWithCommas(PlainElems(v.elems)) + [RBRACKET], t, t[1..], rest);
        Assoc([LBRACKET], JoinWithCommas(PlainElems(v.elems)), [RBRACKET]);
      }
    } else {
      if t[1] == RBRACE {
        SpentThenUnit([LBRACE], t, t[1..]);
        assert Plain(v) == [LBRACE] + [RBRACE] && t[1..][1..] == rest;
      } else {
        FieldsSpent(t[1..], v.fields, rest);
        SpentTwice([LBRACE], JoinWithCommas(Members(PlainFields(v.fields))) + [RBRACE], t, t[1..], rest);
        Assoc([LBRACE], JoinWithCommas(Members(PlainFields(v.fields))), [RBRACE]);
      }
    }
  }

  lemma {:induction false} ElemsSpent(t: Text, elems: seq<Elem>, rest: Text)
    requires WellFormed(t) && ReadElems(t) == Some(Reading(elems, rest))
    ensures elems != [] && Spent(JoinWithCommas(PlainElems(elems)) + [RBRACKET], t, rest)
    decreases |t|, 2
  {
    var first := Read(t).value;
    ValueSpent(t, first.value, first.rest);
    SpentThenUnit(Plain(first.value), t, first.rest);
    var others := elems[1..];
    assert PlainElems(elems) == [Plain(first.value)] + PlainElems(others);
    if first.rest[0] == RBRACKET {
      assert PlainElems(elems) == [Plain(first.value)];
    } else {
      ElemsSpent(first.rest[1..], others, rest);
      ListSpent(Plain(first.value), PlainElems(others), RBRACKET, t, first.rest[1..], rest);
    }
  }

  /** One part, a comma and the other parts. */
  lemma ListSpent(part: Text, others: seq<Text>, close: Unit, t: Text, mid: Text, rest: Text)
    requires others != [] && Spent(part + [COMMA], t, mid) && Spent(JoinWithCommas(others) + [close], mid, rest)
    ensures Spent(JoinWithCommas([part] + others) + [close], t, rest)
  {
    JoinCons(part, others);
    SpentTwice(part + [COMMA], JoinWithCommas(others) + [close], t, mid, rest);
    Assoc(part + [COMMA], JoinWithCommas(others), [close]);
  }

  /** A member up to the text after its value. */
  lemma {:induction false} MemberSpent(t: Text, key: Reading<Text>, value: Reading<Json>)
    requires WellFormed(t) && t != [] && t[0] == QUOTE && ReadChars(t[1..]) == Some(key)
    requires key.rest != [] && key.rest[0] == COLON && Read(key.rest[1..]) == Some(value)
    ensures Spent(Quote(key.value) + [COLON] + Plain(value.value), t, value.rest)
    decreases |t|, 2
  {
    StringSpent(t, key.value, key.rest);
    SpentThenUnit(Quote(key.value), t, key.rest);
    ValueSpent(key.rest[1..], value.value, value.rest);
    SpentTwice(Quote(key.value) + [COLON], Plain(value.value), t, key.rest[1..], value.rest);
  }

  lemma {:induction false} FieldsSpent(t: Text, fields: seq<Entry<Json>>, rest: Text)
    requires WellFormed(t) && ReadFields(t) == Some(Reading(fields, rest))
    ensures fields != [] && Spent(JoinWithCommas(Members(PlainFields(fields))) + [RBRACE], t, rest)
    decreases |t|, 3
  {
    var key := ReadChars(t[1..]).value;
    var value := Read(key.rest[1..]).value;
    var f, others := fields[0], fields[1..];
    var member := Quote(f.key) + [COLON] + Plain(f.value);
    MemberSpent(t, key, value);
    SpentThenUnit(member, t, value.rest);
    assert fields == [f] + others;
    MembersCons(f, others);
    if value.rest[0] == RBRACE {
      assert Members(PlainFields(fields)) == [member];
    } else {
      FieldsSpent(value.rest[1..], others, rest);
      ListSpent(member, Members(PlainFields(others)), RBRACE, t, value.rest[1..], rest);
    }
  }

  // ----- Main results -----

  /**
   The canonical text is the shortest of all well-formed texts that read as the value with its
   members in key order; any other of that length only raises hexadecimal digits. So nothing is
   escaped that need not be, no escape is longer than it must be, and digits are in lower case.
   */
  lemma CanonicalTextIsShortest(v: Json, t: Text)
    requires Accepted(v) && WellFormed(t) && Parse(t) == Some(Normal(v))
    ensures Serialize(v).Some? && |Serialize(v).value| <= |t|
    ensures |Serialize(v).value| == |t| ==> forall i | 0 <= i < |t| :: SameOrRaised(Serialize(v).value[i], t[i])
  {
    SerializeIsPlainNormal(v);
    ValueSpent(t, Normal(v), []);
    assert t[..|t| - 0] == t;
  }

  /** What needs no escape is printed as it is. */
  lemma OrdinaryStringsPrintAsThemselves(s: Text)
    requires WellFormed(s) && forall u | u in s :: u >= 0x20 && u != QUOTE && u != BACKSLASH
    ensures Serialize(Str(s)) == Some([QUOTE] + s + [QUOTE])
  {
    OrdinaryIsKept(s);
  }

  lemma {:induction false} OrdinaryIsKept(s: Text)
    requires WellFormed(s) && forall u | u in s :: u >= 0x20 && u != QUOTE && u != BACKSLASH
    ensures Escape(s) == s
  {
    if s != [] {
      var rest := s[Width(s)..];
      assert s[0] in s && forall u | u in rest :: u in s;
      OrdinaryIsKept(rest);
      assert s == s[..Width(s)] + s[Width(s)..];
    }
  }
}
