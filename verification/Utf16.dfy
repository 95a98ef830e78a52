/**
 UTF-16 text as the source handles it: a string is a sequence of 16-bit code units, `Array.from`
 splits it into scalars (a surrogate pair is one element), and a string is well formed when every
 surrogate belongs to a pair (section 3.9 of the Unicode Standard, D91).
 */
module Utf16 {

  type Unit = n: int | 0 <= n < 0x1_0000

  type Text = seq<Unit>

  predicate IsHigh(u: Unit) {
    0xD800 <= u <= 0xDBFF
  }

  predicate IsLow(u: Unit) {
    0xDC00 <= u <= 0xDFFF
  }

  /** How many code units the string iterator consumes first: a pair counts as one element. */
  function Width(t: Text): (w: nat)
    requires t != []
    ensures 1 <= w <= |t|
  {
    if |t| >= 2 && IsHigh(t[0]) && IsLow(t[1]) then 2 else 1
  }

  /** `Array.from(t)`: one element per scalar; a lone surrogate is an element of its own. */
  function Scalars(t: Text): (parts: seq<Text>)
    ensures |parts| <= |t|
    ensures t != [] ==> |parts| > 0
  {
    if t == [] then [] else [t[..Width(t)]] + Scalars(t[Width(t)..])
  }

  /** `parts.join("")`. */
  function Join(parts: seq<Text>): Text {
    if parts == [] then [] else parts[0] + Join(parts[1..])
  }

  /** The scalar-string test, read left to right one element at a time. */
  predicate WellFormed(t: Text) {
    t == [] || (!IsLow(t[0]) && (IsHigh(t[0]) ==> Width(t) == 2) && WellFormed(t[Width(t)..]))
  }

  /** The same condition said position by position: every surrogate has its partner beside it. */
  predicate Paired(t: Text) {
    forall i | 0 <= i < |t| :: HighIsPaired(t, i) && LowIsPaired(t, i)
  }

  predicate HighIsPaired(t: Text, i: nat)
    requires i < |t|
  {
    IsHigh(t[i]) ==> i + 1 < |t| && IsLow(t[i + 1])
  }

  predicate LowIsPaired(t: Text, i: nat)
    requires i < |t|
  {
    IsLow(t[i]) ==> 0 < i && IsHigh(t[i - 1])
  }

  lemma PairedDrop(t: Text, w: nat)
    requires Paired(t) && w <= |t| && (w < |t| ==> !IsLow(t[w]))
    ensures Paired(t[w..])
  {
    var rest := t[w..];
    forall i | 0 <= i < |rest|
      ensures HighIsPaired(rest, i) && LowIsPaired(rest, i)
    {
      assert rest[i] == t[w + i];
      assert HighIsPaired(t, w + i) && LowIsPaired(t, w + i);
    }
  }

  lemma PairedPrepend(t: Text)
    requires t != [] && !IsLow(t[0]) && (IsHigh(t[0]) ==> Width(t) == 2)
    requires Paired(t[Width(t)..])
    ensures Paired(t)
  {
    var w := Width(t);
    var rest := t[w..];
    forall i | 0 <= i < |t|
      ensures HighIsPaired(t, i) && LowIsPaired(t, i)
    {
      if i >= w {
        assert rest[i - w] == t[i];
        assert HighIsPaired(rest, i - w) && LowIsPaired(rest, i - w);
      }
    }
  }

  lemma {:induction false} WellFormedIsPaired(t: Text)
    ensures WellFormed(t) <==> Paired(t)
  {
    if t != [] {
      var w := Width(t);
      WellFormedIsPaired(t[w..]);
      if WellFormed(t) {
        PairedPrepend(t);
      }
      if Paired(t) {
        assert LowIsPaired(t, 0) && HighIsPaired(t, 0);
        if w < |t| {
          assert LowIsPaired(t, w);
        }
        PairedDrop(t, w);
      }
    }
  }

  /** The index loop of the scalar-string test, skipping the second half of each pair. */
  method IsUnicodeScalarString(value: Text) returns (ok: bool)
    ensures ok <==> WellFormed(value)
    ensures ok <==> Paired(value)
  {
    WellFormedIsPaired(value);
    var index := 0;
    while index < |value|
      invariant 0 <= index <= |value|
      invariant WellFormed(value) <==> WellFormed(value[index..])
    {
      var codeUnit := value[index];
      if IsHigh(codeUnit) {
        if index + 1 >= |value| || !IsLow(value[index + 1]) {
          return false;
        }
        assert value[index..][2..] == value[index + 2..];
        index := index + 1;
      } else if IsLow(codeUnit) {
        return false;
      } else {
        assert value[index..][1..] == value[index + 1..];
      }
      index := index + 1;
    }
    return true;
  }

  lemma {:induction false} JoinScalars(t: Text)
    ensures Join(Scalars(t)) == t
  {
    if t != [] {
      JoinScalars(t[Width(t)..]);
    }
  }

  lemma {:induction false} JoinConcat(a: seq<Text>, b: seq<Text>)
    ensures Join(a + b) == Join(a) + Join(b)
  {
    if a == [] {
      assert a + b == b;
    } else {
      JoinConcat(a[1..], b);
      assert (a + b)[1..] == a[1..] + b;
    }
  }

  /** Splitting a text after a well-formed prefix splits its scalars at the same place. */
  lemma {:induction false} ScalarsConcat(a: Text, b: Text)
    requires WellFormed(a)
    ensures Scalars(a + b) == Scalars(a) + Scalars(b)
  {
    if a == [] {
      assert a + b == b;
    } else {
      var w := Width(a);
      assert Width(a + b) == w && (a + b)[..w] == a[..w] && (a + b)[w..] == a[w..] + b;
      ScalarsConcat(a[w..], b);
    }
  }

  lemma WellFormedConcat(a: Text, b: Text)
    requires WellFormed(a) && WellFormed(b)
    ensures WellFormed(a + b)
  {
    WellFormedIsPaired(a);
    WellFormedIsPaired(b);
    WellFormedIsPaired(a + b);
    var t := a + b;
    forall i | 0 <= i < |t|
      ensures HighIsPaired(t, i) && LowIsPaired(t, i)
    {
      if i < |a| {
        assert HighIsPaired(a, i) && LowIsPaired(a, i);
      } else {
        assert HighIsPaired(b, i - |a|) && LowIsPaired(b, i - |a|);
      }
    }
  }

  /** `part` occurs in `t` at code-unit position `i`. */
  predicate OccursAt(t: Text, part: Text, i: nat) {
    i + |part| <= |t| && t[i..i + |part|] == part
  }

  /** What follows a well-formed prefix of a well-formed text is well formed. */
  lemma {:induction false} SuffixWellFormed(a: Text, b: Text)
    requires WellFormed(a) && WellFormed(a + b)
    ensures WellFormed(b)
  {
    if a == [] {
      assert a + b == b;
    } else {
      var w := Width(a);
      assert Width(a + b) == w && (a + b)[w..] == a[w..] + b;
      SuffixWellFormed(a[w..], b);
    }
  }

  /** A match of non-empty well-formed text inside well-formed text starts on a scalar boundary. */
  lemma MatchStartsOnBoundary(t: Text, part: Text, i: nat)
    requires WellFormed(t) && WellFormed(part) && part != []
    requires OccursAt(t, part, i)
    ensures WellFormed(t[..i])
  {
    WellFormedIsPaired(t);
    WellFormedIsPaired(part);
    WellFormedIsPaired(t[..i]);
    assert part[0] == t[i] && LowIsPaired(part, 0);
    forall k | 0 <= k < i
      ensures HighIsPaired(t[..i], k) && LowIsPaired(t[..i], k)
    {
      assert HighIsPaired(t, k) && LowIsPaired(t, k);
    }
  }

  /** Such a match splits the text in three, and the scalars line up piece by piece. */
  lemma MatchOnScalarBoundary(t: Text, part: Text, i: nat)
    requires WellFormed(t) && WellFormed(part) && part != []
    requires OccursAt(t, part, i)
    ensures WellFormed(t[..i]) && WellFormed(t[i + |part|..])
    ensures Scalars(t) == Scalars(t[..i]) + Scalars(part) + Scalars(t[i + |part|..])
  {
    MatchStartsOnBoundary(t, part, i);
    SplitAround(t, part, i);
    ScalarsOfThree(t[..i], part, t[i + |part|..]);
  }

  lemma SplitAround(t: Text, part: Text, i: nat)
    requires OccursAt(t, part, i)
    ensures t == t[..i] + (part + t[i + |part|..])
  {
  }

  lemma ScalarsOfThree(before: Text, part: Text, after: Text)
    requires WellFormed(before) && WellFormed(part) && WellFormed(before + (part + after))
    ensures WellFormed(after)
    ensures Scalars(before + (part + after)) == Scalars(before) + Scalars(part) + Scalars(after)
  {
    SuffixWellFormed(before, part + after);
    SuffixWellFormed(part, after);
    ScalarsConcat(before, part + after);
    ScalarsConcat(part, after);
    assert Scalars(before) + (Scalars(part) + Scalars(after)) == Scalars(before) + Scalars(part) + Scalars(after);
  }
}
