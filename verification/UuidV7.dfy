/**
 Version 7 UUIDs (section 5.7 of RFC 9562) as the provisioning code and the command bus make them:
 sixteen random bytes, the first six overwritten with the time in milliseconds, two with version
 and variant, printed in lower-case hexadecimal.
 */
module UuidV7 {
  import opened Utf16
  import opened Wrappers
  import opened KeyOrder
  import opened CanonicalJson
  import opened JsonReader
  import opened Envelopes

  type Byte = n: int | 0 <= n < 256

  const MAX_TIME := 0xFFFF_FFFF_FFFF

  function BigEndian(bytes: seq<Byte>): nat {
    if |bytes| == 0 then 0 else 256 * BigEndian(bytes[..|bytes| - 1]) + bytes[|bytes| - 1]
  }

  function Power256(n: nat): nat {
    if n == 0 then 1 else 256 * Power256(n - 1)
  }

  // ----- Text -----

  function Digit(n: int): Unit
    requires 0 <= n < 16
  {
    if n < 10 then 0x30 + n else 0x57 + n
  }

  /** The hexadecimal digit at place `i` of the bytes' text. */
  function Nibble(bytes: seq<Byte>, i: nat): (n: int)
    requires i < 2 * |bytes|
    ensures 0 <= n < 16
  {
    if i % 2 == 0 then bytes[i / 2] / 16 else bytes[i / 2] % 16
  }

  /** `bytes.toString("hex")` */
  function Hex(bytes: seq<Byte>): (t: Text)
    ensures |t| == 2 * |bytes| && forall i | 0 <= i < |t| :: t[i] == Digit(Nibble(bytes, i))
  {
    seq(2 * |bytes|, i requires 0 <= i < 2 * |bytes| => Digit(Nibble(bytes, i)))
  }

  function UuidText(bytes: seq<Byte>): (t: Text)
    requires |bytes| == 16
  {
    var hex := Hex(bytes);
    hex[..8] + [MINUS] + hex[8..12] + [MINUS] + hex[12..16] + [MINUS] + hex[16..20] + [MINUS] + hex[20..]
  }

  /** Which digit stands at place `i` of the text. */
  function PlaceOf(i: nat): nat
    requires i < 36 && !IsHyphenAt(i)
  {
    if i < 8 then i else if i < 13 then i - 1 else if i < 18 then i - 2 else if i < 23 then i - 3 else i - 4
  }

  lemma UuidTextAt(bytes: seq<Byte>)
    requires |bytes| == 16
    ensures |UuidText(bytes)| == 36
    ensures forall i | 0 <= i < 36 :: UuidText(bytes)[i] == if IsHyphenAt(i) then MINUS else Hex(bytes)[PlaceOf(i)]
  {
  }

  /** What the generator makes of random bytes: version 7 and variant 10 in their places. */
  ghost predicate IsVersion7(bytes: seq<Byte>) {
    |bytes| == 16 && bytes[6] / 16 == 7 && bytes[8] / 64 == 2
  }

  /** The text of a version 7 UUID is accepted, and left as it is, by the envelope parser. */
  lemma TextIsAccepted(bytes: seq<Byte>)
    requires IsVersion7(bytes)
    ensures RequireUuid(Str(UuidText(bytes)), Version7) == Some(UuidText(bytes))
  {
    var t := UuidText(bytes);
    UuidTextAt(bytes);
    forall i | 0 <= i < 36
      ensures if IsHyphenAt(i) then t[i] == MINUS else IsHex(t[i])
      ensures LowerUnit(t[i]) == t[i]
    {
    }
    assert t[14] == Digit(Nibble(bytes, 12)) == Digit(7);
    assert t[19] == Digit(Nibble(bytes, 16));
    assert 8 <= bytes[8] / 16 < 12;
    assert Lower(t) == t;
  }

  function WithoutHyphens(t: Text): Text
    requires |t| == 36
  {
    t[..8] + t[9..13] + t[14..18] + t[19..23] + t[24..]
  }

  /** Read without its hyphens, two digits to a byte, the text gives back the bytes in order. */
  lemma TextSpellsBytes(bytes: seq<Byte>, k: nat)
    requires |bytes| == 16 && k < 16
    ensures |UuidText(bytes)| == 36
    ensures var digits := WithoutHyphens(UuidText(bytes));
            && |digits| == 32 && HexValue(digits[2 * k]).Some? && HexValue(digits[2 * k + 1]).Some?
            && 16 * HexValue(digits[2 * k]).value + HexValue(digits[2 * k + 1]).value == bytes[k]
  {
    var hex, t := Hex(bytes), UuidText(bytes);
    assert t[..8] == hex[..8] && t[9..13] == hex[8..12] && t[14..18] == hex[12..16] && t[19..23] == hex[16..20] && t[24..] == hex[20..];
    assert WithoutHyphens(t) == hex;
    assert HexValue(Digit(Nibble(bytes, 2 * k))) == Some(Nibble(bytes, 2 * k));
  }

  // ----- Generating -----

  /**
   The byte loop both generators share, on a buffer of random bytes: it writes the low 48 bits of
   the time. On a byte, `0x70 | (b & 0x0f)` is `0x70 + b % 16` and `0x80 | (b & 0x3f)` is
   `0x80 + b % 64`; `timestamp & 0xff` is the remainder by 256, of a negative time too.
   */
  method WriteUuidV7(now: int, bytes: array<Byte>) returns (text: Text)
    requires bytes.Length == 16
    modifies bytes
    ensures BigEndian(bytes[..6]) == now % 0x1_0000_0000_0000
    ensures IsVersion7(bytes[..]) && text == UuidText(bytes[..])
    ensures bytes[6] % 16 == old(bytes[6]) % 16 && bytes[8] % 64 == old(bytes[8]) % 64
    ensures bytes[7] == old(bytes[7]) && forall i | 9 <= i < 16 :: bytes[i] == old(bytes[i])
  {
    var timestamp := now;
    var index := 5;
    while index >= 0
      invariant -1 <= index <= 5
      invariant timestamp * Power256(5 - index) + BigEndian(bytes[index + 1..6]) == now
      invariant forall i | 6 <= i < 16 :: bytes[i] == old(bytes[i])
    {
      ghost var low := bytes[index + 1..6];
      bytes[index] := timestamp % 256;
      assert bytes[index..6] == [timestamp % 256] + low;
      BigEndianPrepend(timestamp % 256, low);
      SplitTime(timestamp, Power256(5 - index));
      timestamp := timestamp / 256;
      index := index - 1;
    }
    BigEndianBound(bytes[0..6]);
    assert bytes[0..6] == bytes[..6];
    assert Power256(6) == 0x1_0000_0000_0000;
    RemainderIs(now, timestamp, BigEndian(bytes[..6]));
    bytes[6] := 0x70 + bytes[6] % 16;
    bytes[8] := 0x80 + bytes[8] % 64;
    text := UuidText(bytes[..]);
  }

  /** The guarded generator: a time of at most 48 bits is written exactly, any other is refused. */
  method GenerateUuidV7(now: int, bytes: array<Byte>) returns (text: Option<Text>)
    requires bytes.Length == 16
    modifies bytes
    ensures text.None? <==> now < 0 || now > MAX_TIME
    ensures text.None? ==> bytes[..] == old(bytes[..])
    ensures text.Some? ==> BigEndian(bytes[..6]) == now && IsVersion7(bytes[..]) && text.value == UuidText(bytes[..])
  {
    if now < 0 || now > MAX_TIME {
      return None;
    }
    var t := WriteUuidV7(now, bytes);
    text := Some(t);
  }

  lemma RemainderIs(now: int, quotient: int, remainder: nat)
    requires now == quotient * 0x1_0000_0000_0000 + remainder && remainder < 0x1_0000_0000_0000
    ensures now % 0x1_0000_0000_0000 == remainder
  {
  }

  lemma {:induction false} BigEndianPrepend(b: Byte, rest: seq<Byte>)
    ensures BigEndian([b] + rest) == b * Power256(|rest|) + BigEndian(rest)
  {
    if |rest| > 0 {
      var front := rest[..|rest| - 1];
      assert ([b] + rest)[..|rest|] == [b] + front;
      BigEndianPrepend(b, front);
    }
  }

  lemma SplitTime(t: int, p: nat)
    ensures t * p == t / 256 * (256 * p) + t % 256 * p
  {
    assert t == t / 256 * 256 + t % 256;
  }

  // ----- Order -----

  lemma {:induction false} BigEndianBound(bytes: seq<Byte>)
    ensures BigEndian(bytes) < Power256(|bytes|)
  {
    if |bytes| > 0 {
      BigEndianBound(bytes[..|bytes| - 1]);
    }
  }

  /** The first place where two byte strings of different value differ. */
  lemma {:induction false} FirstDifference(a: seq<Byte>, b: seq<Byte>) returns (k: nat)
    requires |a| == |b| && BigEndian(a) < BigEndian(b)
    ensures k < |a| && a[..k] == b[..k] && a[k] < b[k]
  {
    var n := |a| - 1;
    if BigEndian(a[..n]) < BigEndian(b[..n]) {
      k := FirstDifference(a[..n], b[..n]);
      assert a[..k] == a[..n][..k] && b[..k] == b[..n][..k];
    } else {
      assert BigEndian(a[..n]) == BigEndian(b[..n]);
      EqualValueEqualBytes(a[..n], b[..n]);
      k := n;
    }
  }

  lemma {:induction false} EqualValueEqualBytes(a: seq<Byte>, b: seq<Byte>)
    requires |a| == |b| && BigEndian(a) == BigEndian(b)
    ensures a == b
  {
    if |a| > 0 {
      EqualValueEqualBytes(a[..|a| - 1], b[..|b| - 1]);
      assert a == a[..|a| - 1] + [a[|a| - 1]] && b == b[..|b| - 1] + [b[|b| - 1]];
    }
  }

  lemma {:induction false} LessAtDifference(t: Text, u: Text, p: nat)
    requires p < |t| && p < |u| && t[..p] == u[..p] && t[p] < u[p]
    ensures KeyLess(t, u)
  {
    if p > 0 {
      assert t[0] == t[..p][0] == u[..p][0] == u[0];
      assert t[1..][..p - 1] == t[..p][1..] == u[..p][1..] == u[1..][..p - 1];
      LessAtDifference(t[1..], u[1..], p - 1);
    }
  }

  /** A smaller byte after equal ones makes a smaller digit after equal text. */
  lemma DigitDiffers(a: seq<Byte>, b: seq<Byte>, k: nat) returns (p: nat)
    requires |a| == 16 && |b| == 16 && k < 6 && a[k] < b[k] && forall j | 0 <= j < k :: a[j] == b[j]
    ensures p < 36 && UuidText(a)[..p] == UuidText(b)[..p] && UuidText(a)[p] < UuidText(b)[p]
  {
    UuidTextAt(a);
    UuidTextAt(b);
    var digit := if a[k] / 16 < b[k] / 16 then 2 * k else 2 * k + 1;
    p := if digit < 8 then digit else digit + 1;
    assert forall i | 0 <= i < digit :: Nibble(a, i) == Nibble(b, i);
    assert Nibble(a, digit) < Nibble(b, digit);
    assert PlaceOf(p) == digit;
    forall i | 0 <= i < p
      ensures UuidText(a)[i] == UuidText(b)[i]
    {
      if !IsHyphenAt(i) {
        assert PlaceOf(i) < digit;
      }
    }
  }

  /** Ids of later milliseconds come later in lexicographic order, whatever their random bytes. */
  lemma LaterIdsSortLater(a: seq<Byte>, b: seq<Byte>)
    requires |a| == 16 && |b| == 16 && BigEndian(a[..6]) < BigEndian(b[..6])
    ensures KeyLess(UuidText(a), UuidText(b))
  {
    var k := FirstDifference(a[..6], b[..6]);
    assert forall j | 0 <= j < k :: a[j] == a[..6][..k][j] == b[..6][..k][j] == b[j];
    var p := DigitDiffers(a, b, k);
    LessAtDifference(UuidText(a), UuidText(b), p);
  }
}
