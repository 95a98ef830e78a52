/**
 Failure codes and retry delays: what the relays make of an error's name and of an attempt number
 before they report a failure, and what the repositories accept in such a report.
 */
module ErrorCodes {
  import opened Utf16
  import opened Wrappers

  const UNDERSCORE: Unit := 0x5F

  predicate IsDigitUnit(u: Unit) { 0x30 <= u <= 0x39 }

  predicate IsLowerCase(u: Unit) { 0x61 <= u <= 0x7A }

  predicate IsUpperCase(u: Unit) { 0x41 <= u <= 0x5A }

  predicate IsAlnum(u: Unit) { IsDigitUnit(u) || IsLowerCase(u) || IsUpperCase(u) }

  predicate IsCodeUnit(u: Unit) { IsDigitUnit(u) || IsLowerCase(u) || u == UNDERSCORE }

  function LowerCase(u: Unit): Unit {
    if IsUpperCase(u) then u + 0x20 else u
  }

  // ----- The passes of normalizeErrorCode -----

  /** `replace(/([a-z0-9])([A-Z])/g, "$1_$2")`: the scan resumes after the matched pair. */
  function SplitCamel(t: Text): Text {
    if |t| >= 2 && (IsDigitUnit(t[0]) || IsLowerCase(t[0])) && IsUpperCase(t[1]) then
      [t[0], UNDERSCORE, t[1]] + SplitCamel(t[2..])
    else if t == [] then []
    else [t[0]] + SplitCamel(t[1..])
  }

  function SkipSeparators(t: Text): (rest: Text)
    ensures |rest| <= |t| && (rest != [] ==> IsAlnum(rest[0]))
    ensures t != [] && !IsAlnum(t[0]) ==> |rest| < |t|
  {
    if t == [] || IsAlnum(t[0]) then t else SkipSeparators(t[1..])
  }

  /** `replace(/[^A-Za-z0-9]+/g, "_")`: each maximal run of other units becomes one underscore. */
  function Collapse(t: Text): Text
    decreases |t|
  {
    if t == [] then []
    else if IsAlnum(t[0]) then [t[0]] + Collapse(t[1..])
    else [UNDERSCORE] + Collapse(SkipSeparators(t))
  }

  function StripLeading(t: Text): Text {
    if t != [] && t[0] == UNDERSCORE then StripLeading(t[1..]) else t
  }

  function StripTrailing(t: Text): Text {
    if t != [] && t[|t| - 1] == UNDERSCORE then StripTrailing(t[..|t| - 1]) else t
  }

  function ToLowerCase(t: Text): (r: Text)
    ensures |r| == |t| && forall i | 0 <= i < |t| :: r[i] == LowerCase(t[i])
  {
    seq(|t|, i requires 0 <= i < |t| => LowerCase(t[i]))
  }

  /** "sqs_ambiguous_failure" */
  const FALLBACK: Text :=
    [0x73, 0x71, 0x73, 0x5F, 0x61, 0x6D, 0x62, 0x69, 0x67, 0x75, 0x6F, 0x75, 0x73, 0x5F,
     0x66, 0x61, 0x69, 0x6C, 0x75, 0x72, 0x65]

  function Take(t: Text, limit: nat): Text {
    if |t| <= limit then t else t[..limit]
  }

  /** Everything before the cut to length. */
  function Cleaned(name: Text): Text {
    ToLowerCase(StripTrailing(StripLeading(Collapse(SplitCamel(name)))))
  }

  /** `normalizeErrorCode`; the product relay cuts at 100 units, the Foundation relay at 200. */
  function NormalizeErrorCode(name: Text, limit: nat): Text {
    var code := Take(Cleaned(name), limit);
    if code == [] then FALLBACK else code
  }

  // ----- What a repository accepts -----

  /** `^[a-z0-9][a-z0-9_]{0,99}$` */
  predicate IsSafeCode(code: Text) {
    && 1 <= |code| <= 100
    && code[0] != UNDERSCORE
    && forall i | 0 <= i < |code| :: IsCodeUnit(code[i])
  }

  /** The Foundation repository's rule for codes, owners and event ids. */
  predicate IsResultValue(value: Text) {
    1 <= |value| <= 200
  }

  // ----- What the passes keep -----

  /** The letters and digits of a text, in order. */
  function Alnums(t: Text): Text {
    if t == [] then [] else (if IsAlnum(t[0]) then [t[0]] else []) + Alnums(t[1..])
  }

  lemma {:induction false} AlnumsConcat(a: Text, b: Text)
    ensures Alnums(a + b) == Alnums(a) + Alnums(b)
  {
    if a == [] {
      assert a + b == b;
    } else {
      assert (a + b)[1..] == a[1..] + b;
      AlnumsConcat(a[1..], b);
    }
  }

  lemma {:induction false} SplitCamelKeepsAlnums(t: Text)
    ensures Alnums(SplitCamel(t)) == Alnums(t)
  {
    if |t| >= 2 && (IsDigitUnit(t[0]) || IsLowerCase(t[0])) && IsUpperCase(t[1]) {
      SplitCamelKeepsAlnums(t[2..]);
      AlnumsConcat([t[0], UNDERSCORE, t[1]], SplitCamel(t[2..]));
      AlnumsConcat([t[0], t[1]], t[2..]);
      assert t == [t[0], t[1]] + t[2..];
    } else if t != [] {
      SplitCamelKeepsAlnums(t[1..]);
      AlnumsConcat([t[0]], SplitCamel(t[1..]));
      AlnumsConcat([t[0]], t[1..]);
      assert t == [t[0]] + t[1..];
    }
  }

  lemma {:induction false} SkipSeparatorsKeepsAlnums(t: Text)
    ensures Alnums(SkipSeparators(t)) == Alnums(t)
  {
    if t != [] && !IsAlnum(t[0]) {
      SkipSeparatorsKeepsAlnums(t[1..]);
    }
  }

  /** Letters, digits and single underscores only. */
  ghost predicate IsCollapsed(t: Text) {
    && (forall i | 0 <= i < |t| :: IsAlnum(t[i]) || t[i] == UNDERSCORE)
    && (forall i | 0 < i < |t| :: IsAlnum(t[i - 1]) || IsAlnum(t[i]))
  }

  lemma IsCollapsedPrepend(u: Unit, t: Text)
    requires IsCollapsed(t) && (IsAlnum(u) || (u == UNDERSCORE && (t != [] ==> IsAlnum(t[0]))))
    ensures IsCollapsed([u] + t)
  {
  }

  lemma {:induction false} CollapseCollapses(t: Text)
    ensures IsCollapsed(Collapse(t)) && Alnums(Collapse(t)) == Alnums(t)
    ensures t != [] && IsAlnum(t[0]) ==> Collapse(t) != [] && Collapse(t)[0] == t[0]
    decreases |t|
  {
    if t != [] {
      var rest := if IsAlnum(t[0]) then t[1..] else SkipSeparators(t);
      CollapseCollapses(rest);
      SkipSeparatorsKeepsAlnums(t);
      IsCollapsedPrepend(if IsAlnum(t[0]) then t[0] else UNDERSCORE, Collapse(rest));
      AlnumsConcat([Collapse(t)[0]], Collapse(rest));
    }
  }

  lemma {:induction false} StripLeadingStrips(t: Text)
    requires IsCollapsed(t)
    ensures var r := StripLeading(t); IsCollapsed(r) && Alnums(r) == Alnums(t) && (r != [] ==> IsAlnum(r[0]))
  {
    if t != [] && t[0] == UNDERSCORE {
      var tail := t[1..];
      assert forall i | 0 <= i < |tail| :: tail[i] == t[i + 1];
      StripLeadingStrips(tail);
    }
  }

  lemma {:induction false} StripTrailingStrips(t: Text)
    requires IsCollapsed(t) && (t != [] ==> IsAlnum(t[0]))
    ensures var r := StripTrailing(t);
            && IsCollapsed(r) && Alnums(r) == Alnums(t)
            && (r != [] ==> IsAlnum(r[0]) && IsAlnum(r[|r| - 1]))
  {
    if t != [] && t[|t| - 1] == UNDERSCORE {
      var front := t[..|t| - 1];
      AlnumsConcat(front, [UNDERSCORE]);
      assert t == front + [UNDERSCORE];
      StripTrailingStrips(front);
    }
  }

  lemma {:induction false} ToLowerCaseAlnums(t: Text)
    ensures Alnums(ToLowerCase(t)) == ToLowerCase(Alnums(t))
  {
    if t != [] {
      ToLowerCaseAlnums(t[1..]);
      assert ToLowerCase(t)[1..] == ToLowerCase(t[1..]);
      assert Alnums(ToLowerCase(t)) == ToLowerCase(Alnums(t));
    }
  }

  /** Words of lower-case letters and digits, one underscore between words. */
  ghost predicate IsSnakeCase(t: Text) {
    && IsCollapsed(t)
    && (forall i | 0 <= i < |t| :: IsCodeUnit(t[i]))
    && (t != [] ==> IsAlnum(t[0]) && IsAlnum(t[|t| - 1]))
  }

  lemma LowerCaseKeepsShape(t: Text)
    requires IsCollapsed(t) && (t != [] ==> IsAlnum(t[0]) && IsAlnum(t[|t| - 1]))
    ensures IsSnakeCase(ToLowerCase(t))
  {
    var lower := ToLowerCase(t);
    forall i | 0 <= i < |t|
      ensures IsAlnum(lower[i]) == IsAlnum(t[i]) && IsCodeUnit(lower[i])
    {
      assert IsAlnum(t[i]) || t[i] == UNDERSCORE;
    }
  }

  lemma CleanedIsSnakeCase(name: Text)
    ensures IsSnakeCase(Cleaned(name)) && Alnums(Cleaned(name)) == ToLowerCase(Alnums(name))
  {
    var split := SplitCamel(name);
    SplitCamelKeepsAlnums(name);
    CollapseCollapses(split);
    StripLeadingStrips(Collapse(split));
    StripTrailingStrips(StripLeading(Collapse(split)));
    ToLowerCaseAlnums(StripTrailing(StripLeading(Collapse(split))));
    LowerCaseKeepsShape(StripTrailing(StripLeading(Collapse(split))));
  }

  /** Snake-case text passes through every pass unchanged. */
  lemma {:induction false} SplitCamelKeepsLowerCase(t: Text)
    requires forall i | 0 <= i < |t| :: IsCodeUnit(t[i])
    ensures SplitCamel(t) == t
  {
    if t != [] {
      SplitCamelKeepsLowerCase(t[1..]);
    }
  }

  lemma {:induction false} CollapseKeepsCollapsed(t: Text)
    requires IsCollapsed(t)
    ensures Collapse(t) == t
  {
    if t != [] {
      var tail := t[1..];
      assert forall i | 0 <= i < |tail| :: tail[i] == t[i + 1];
      CollapseKeepsCollapsed(tail);
      if !IsAlnum(t[0]) {
        assert tail != [] ==> IsAlnum(t[1]);
        assert SkipSeparators(t) == SkipSeparators(tail) == tail;
      }
    }
  }

  lemma StripKeepsBareEnds(t: Text)
    requires t != [] ==> IsAlnum(t[0]) && IsAlnum(t[|t| - 1])
    ensures StripLeading(t) == t && StripTrailing(t) == t
  {
  }

  lemma LowerCaseKeepsCode(t: Text)
    requires forall i | 0 <= i < |t| :: IsCodeUnit(t[i])
    ensures ToLowerCase(t) == t
  {
    assert forall i | 0 <= i < |t| :: IsCodeUnit(t[i]) && LowerCase(t[i]) == t[i];
  }

  lemma SnakeCaseIsFixed(t: Text)
    requires IsSnakeCase(t)
    ensures Cleaned(t) == t
  {
    assert SplitCamel(t) == t by {
      SplitCamelKeepsLowerCase(t);
    }
    assert Collapse(t) == t by {
      CollapseKeepsCollapsed(t);
    }
    StripKeepsBareEnds(t);
    LowerCaseKeepsCode(t);
  }

  lemma TakeOfSnakeCase(t: Text, limit: nat)
    requires IsSnakeCase(t) && t != [] && limit >= 1
    ensures var code := Take(t, limit);
            && code != [] && |code| <= limit && IsCollapsed(code) && IsAlnum(code[0])
            && (forall i | 0 <= i < |code| :: IsCodeUnit(code[i]))
            && (code[|code| - 1] != UNDERSCORE ==> IsSnakeCase(code))
  {
  }

  lemma SnakeCaseNormalizesToItself(code: Text, limit: nat)
    requires IsSnakeCase(code) && 1 <= |code| <= limit
    ensures NormalizeErrorCode(code, limit) == code
  {
    SnakeCaseIsFixed(code);
  }

  /**
   A report of a failure is never refused for its code: whatever the error is called, the product
   relay's code matches the safe-code pattern and the Foundation relay's has an allowed length.
   */
  lemma ReportedCodesAreAccepted(name: Text)
    ensures IsSafeCode(NormalizeErrorCode(name, 100))
    ensures IsResultValue(NormalizeErrorCode(name, 200))
  {
    CleanedIsSnakeCase(name);
  }

  /**
   What a code says: the letters and digits of the name in lower case, all of them unless the code
   fills the limit; the fallback code when the name has none.
   */
  lemma CodeSpellsTheName(name: Text, limit: nat)
    requires limit >= 1
    ensures Alnums(name) == [] ==> NormalizeErrorCode(name, limit) == FALLBACK
    ensures Alnums(name) != [] ==> Alnums(NormalizeErrorCode(name, limit)) <= ToLowerCase(Alnums(name))
    ensures Alnums(name) != [] && |NormalizeErrorCode(name, limit)| < limit ==>
              Alnums(NormalizeErrorCode(name, limit)) == ToLowerCase(Alnums(name))
  {
    CleanedIsSnakeCase(name);
    var cleaned := Cleaned(name);
    if |cleaned| > limit {
      AlnumsConcat(cleaned[..limit], cleaned[limit..]);
      assert cleaned == cleaned[..limit] + cleaned[limit..];
    }
  }

  // ----- Where the words start -----

  predicate EndsLower(u: Unit) {
    IsDigitUnit(u) || IsLowerCase(u)
  }

  /** A word starts at `u` behind a separator, or where upper case follows lower case or a digit. */
  predicate StartsWord(prev: Unit, u: Unit) {
    !IsAlnum(prev) || (EndsLower(prev) && IsUpperCase(u))
  }

  /** The letters and digits of a text that follows `prev`, in lower case, each with whether it starts a word. */
  function Letters(prev: Unit, t: Text): seq<(Unit, bool)>
    decreases |t|
  {
    if t == [] then []
    else (if IsAlnum(t[0]) then [(LowerCase(t[0]), StartsWord(prev, t[0]))] else []) + Letters(t[0], t[1..])
  }

  /** No upper-case letter follows a lower-case one or a digit. */
  predicate CamelFree(prev: Unit, t: Text)
    decreases |t|
  {
    t == [] || (!(EndsLower(prev) && IsUpperCase(t[0])) && CamelFree(t[0], t[1..]))
  }

  lemma FirstLetter(prev: Unit, u: Unit, t: Text)
    ensures Letters(prev, [u] + t) == (if IsAlnum(u) then [(LowerCase(u), StartsWord(prev, u))] else []) + Letters(u, t)
    ensures CamelFree(prev, [u] + t) <==> !(EndsLower(prev) && IsUpperCase(u)) && CamelFree(u, t)
  {
    assert ([u] + t)[1..] == t;
  }

  lemma LettersOfPair(prev: Unit, a: Unit, b: Unit, split: Text, t: Text)
    requires EndsLower(a) && IsUpperCase(b) && Letters(b, split) == Letters(b, t)
    ensures Letters(prev, [a, UNDERSCORE, b] + split) == Letters(prev, [a, b] + t)
    ensures CamelFree(b, split) ==> CamelFree(prev, [a, UNDERSCORE, b] + split)
  {
    FirstLetter(UNDERSCORE, b, split);
    FirstLetter(a, UNDERSCORE, [b] + split);
    FirstLetter(prev, a, [UNDERSCORE] + ([b] + split));
    assert [a, UNDERSCORE, b] + split == [a] + ([UNDERSCORE] + ([b] + split));
    FirstLetter(a, b, t);
    FirstLetter(prev, a, [b] + t);
    assert [a, b] + t == [a] + ([b] + t);
  }

  lemma {:induction false} SplitCamelKeepsWords(prev: Unit, t: Text)
    ensures Letters(prev, SplitCamel(t)) == Letters(prev, t)
    ensures (t != [] ==> !(EndsLower(prev) && IsUpperCase(t[0]))) ==> CamelFree(prev, SplitCamel(t))
    decreases |t|
  {
    if |t| >= 2 && EndsLower(t[0]) && IsUpperCase(t[1]) {
      SplitCamelKeepsWords(t[1], t[2..]);
      LettersOfPair(prev, t[0], t[1], SplitCamel(t[2..]), t[2..]);
      assert t == [t[0], t[1]] + t[2..];
    } else if t != [] {
      SplitCamelKeepsWords(t[0], t[1..]);
    }
  }

  lemma BehindSeparators(prev: Unit, other: Unit, t: Text)
    requires !IsAlnum(prev) && !IsAlnum(other)
    ensures Letters(prev, t) == Letters(other, t) && (CamelFree(prev, t) <==> CamelFree(other, t))
  {
  }

  lemma {:induction false} SkippingKeepsWords(t: Text)
    ensures Letters(UNDERSCORE, SkipSeparators(t)) == Letters(UNDERSCORE, t)
    ensures CamelFree(UNDERSCORE, t) ==> CamelFree(UNDERSCORE, SkipSeparators(t))
  {
    if t != [] && !IsAlnum(t[0]) {
      BehindSeparators(UNDERSCORE, t[0], t[1..]);
      SkippingKeepsWords(t[1..]);
    }
  }

  lemma {:induction false} CollapseKeepsWords(prev: Unit, t: Text)
    ensures Letters(prev, Collapse(t)) == Letters(prev, t)
    ensures CamelFree(prev, t) ==> CamelFree(prev, Collapse(t))
    decreases |t|
  {
    if t != [] && IsAlnum(t[0]) {
      CollapseKeepsWords(t[0], t[1..]);
    } else if t != [] {
      CollapseKeepsWords(UNDERSCORE, SkipSeparators(t));
      SkippingKeepsWords(t);
      BehindSeparators(UNDERSCORE, t[0], t[1..]);
    }
  }

  lemma {:induction false} StripLeadingKeepsWords(t: Text)
    ensures Letters(UNDERSCORE, StripLeading(t)) == Letters(UNDERSCORE, t)
    ensures CamelFree(UNDERSCORE, t) ==> CamelFree(UNDERSCORE, StripLeading(t))
  {
    if t != [] && t[0] == UNDERSCORE {
      StripLeadingKeepsWords(t[1..]);
    }
  }

  lemma {:induction false} TrailingSeparator(prev: Unit, t: Text)
    ensures Letters(prev, t + [UNDERSCORE]) == Letters(prev, t)
    ensures CamelFree(prev, t + [UNDERSCORE]) ==> CamelFree(prev, t)
    decreases |t|
  {
    if t != [] {
      assert (t + [UNDERSCORE])[1..] == t[1..] + [UNDERSCORE];
      TrailingSeparator(t[0], t[1..]);
    }
  }

  lemma {:induction false} StripTrailingKeepsWords(prev: Unit, t: Text)
    ensures Letters(prev, StripTrailing(t)) == Letters(prev, t)
    ensures CamelFree(prev, t) ==> CamelFree(prev, StripTrailing(t))
    decreases |t|
  {
    if t != [] && t[|t| - 1] == UNDERSCORE {
      var front := t[..|t| - 1];
      assert t == front + [UNDERSCORE];
      TrailingSeparator(prev, front);
      StripTrailingKeepsWords(prev, front);
    }
  }

  lemma {:induction false} LowerCaseKeepsWords(prev: Unit, t: Text)
    requires CamelFree(prev, t)
    ensures Letters(LowerCase(prev), ToLowerCase(t)) == Letters(prev, t)
    decreases |t|
  {
    if t != [] {
      LowerCaseKeepsWords(t[0], t[1..]);
      assert ToLowerCase(t)[1..] == ToLowerCase(t[1..]);
    }
  }

  /**
   What a code says, up to the cut to length: the letters and digits of the name in lower case, and
   the same words. Single underscores tell the words apart, and nothing else is in the code.
   */
  lemma CleanedKeepsWords(name: Text, limit: nat)
    requires limit >= 1
    ensures IsSnakeCase(Cleaned(name)) && Letters(UNDERSCORE, Cleaned(name)) == Letters(UNDERSCORE, name)
    ensures Cleaned(name) != [] ==>
              && NormalizeErrorCode(name, limit) <= Cleaned(name)
              && |NormalizeErrorCode(name, limit)| == if |Cleaned(name)| <= limit then |Cleaned(name)| else limit
  {
    var split := SplitCamel(name);
    SplitCamelKeepsWords(UNDERSCORE, name);
    CollapseKeepsWords(UNDERSCORE, split);
    StripLeadingKeepsWords(Collapse(split));
    StripTrailingKeepsWords(UNDERSCORE, StripLeading(Collapse(split)));
    LowerCaseKeepsWords(UNDERSCORE, StripTrailing(StripLeading(Collapse(split))));
    CleanedIsSnakeCase(name);
  }

  lemma TrailingUnderscoreIsDropped(t: Text)
    requires IsCollapsed(t) && forall i | 0 <= i < |t| :: IsCodeUnit(t[i])
    requires t != [] && IsAlnum(t[0]) && t[|t| - 1] == UNDERSCORE
    ensures |Cleaned(t)| < |t| && Cleaned(t) != []
  {
    SplitCamelKeepsLowerCase(t);
    CollapseKeepsCollapsed(t);
    StripTrailingShortens(t[..|t| - 1]);
    StripTrailingStrips(t);
    assert Alnums(t) == [t[0]] + Alnums(t[1..]);
  }

  /** Normalising a code again changes it exactly when the cut falls right behind an underscore. */
  lemma NormalizingTwice(name: Text, limit: nat)
    requires limit >= 21
    ensures var code := NormalizeErrorCode(name, limit);
            NormalizeErrorCode(code, limit) == code <==> |Cleaned(name)| <= limit || Cleaned(name)[limit - 1] != UNDERSCORE
  {
    var cleaned := Cleaned(name);
    CleanedIsSnakeCase(name);
    if cleaned == [] {
      FallbackIsSnakeCase();
      SnakeCaseNormalizesToItself(FALLBACK, limit);
    } else {
      TakeOfSnakeCase(cleaned, limit);
      var code := Take(cleaned, limit);
      if code[|code| - 1] != UNDERSCORE {
        SnakeCaseNormalizesToItself(code, limit);
      } else {
        TrailingUnderscoreIsDropped(code);
      }
    }
  }

  /** Ninety-nine letters, an underscore and one letter more. */
  const LONG_NAME: Text := seq(99, (i: int) => 0x61) + [UNDERSCORE, 0x62]

  /** A name whose code, normalised again, loses its last unit. */
  lemma NormalizingTwiceCanChange()
    ensures NormalizeErrorCode(NormalizeErrorCode(LONG_NAME, 100), 100) != NormalizeErrorCode(LONG_NAME, 100)
  {
    assert |LONG_NAME| == 101 && LONG_NAME[99] == UNDERSCORE && LONG_NAME[100] == 0x62;
    assert forall i | 0 <= i < 99 :: LONG_NAME[i] == 0x61;
    assert IsSnakeCase(LONG_NAME);
    SnakeCaseIsFixed(LONG_NAME);
    NormalizingTwice(LONG_NAME, 100);
  }

  lemma FallbackIsSnakeCase()
    ensures IsSnakeCase(FALLBACK) && |FALLBACK| == 21
  {
  }

  lemma {:induction false} StripTrailingShortens(t: Text)
    ensures |StripTrailing(t)| <= |t|
  {
    if t != [] {
      StripTrailingShortens(t[..|t| - 1]);
    }
  }

  // ----- Delays -----

  function Power2(n: nat): nat {
    if n == 0 then 1 else 2 * Power2(n - 1)
  }

  function Min(a: int, b: int): int {
    if a <= b then a else b
  }

  function Max(a: int, b: int): int {
    if a >= b then a else b
  }

  /** The Foundation relay's `retryDelaySeconds`. */
  function FoundationDelay(attempt: int): int {
    Min(300, Power2(Min(Max(attempt - 1, 0), 8)))
  }

  /** The range `recordRetry` accepts. */
  predicate IsRetryDelay(seconds: int) {
    0 <= seconds <= 3600
  }

  lemma {:induction false} Power2Grows(m: nat, n: nat)
    requires m <= n
    ensures 1 <= Power2(m) <= Power2(n)
    decreases n
  {
    if m < n {
      Power2Grows(m, n - 1);
    } else if n > 0 {
      Power2Grows(m - 1, n - 1);
    }
  }

  /** For every attempt number the delay is accepted, doubles up to 256 seconds and never decreases. */
  lemma FoundationDelayIsAccepted(attempt: int, later: int)
    requires attempt <= later
    ensures 1 <= FoundationDelay(attempt) <= FoundationDelay(later) <= 256
    ensures IsRetryDelay(FoundationDelay(attempt))
    ensures 1 <= attempt <= 8 ==> FoundationDelay(attempt + 1) == 2 * FoundationDelay(attempt)
  {
    assert Power2(8) == 256;
    Power2Grows(Min(Max(attempt - 1, 0), 8), Min(Max(later - 1, 0), 8));
    Power2Grows(Min(Max(later - 1, 0), 8), 8);
    if 1 <= attempt <= 8 {
      Power2Grows(attempt, 8);
    }
  }

  // ----- Classification -----

  datatype FailureKind = Deterministic | Ambiguous

  datatype Failure = Failure(kind: FailureKind, code: Text)

  /** `classifyProductSqsError`; the set of rejections SQS makes for certain is a parameter. */
  function ClassifyProductError(deterministic: set<Text>, name: Option<Text>): Failure {
    var known := if name.None? || name.value == [] then FALLBACK else name.value;
    Failure(if known in deterministic then Deterministic else Ambiguous, NormalizeErrorCode(known, 100))
  }

  /** A failure is certain exactly when its name, or the fallback for want of one, is among the certain rejections. */
  lemma ClassificationMeaning(deterministic: set<Text>, name: Option<Text>)
    ensures ClassifyProductError(deterministic, name).kind.Deterministic? <==>
            || (name.Some? && |name.value| > 0 && name.value in deterministic)
            || ((name.None? || |name.value| == 0) && FALLBACK in deterministic)
    ensures IsSafeCode(ClassifyProductError(deterministic, name).code)
  {
    ReportedCodesAreAccepted(if name.None? || name.value == [] then FALLBACK else name.value);
  }

}
