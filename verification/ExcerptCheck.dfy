/**
 The web application's own walk over the canonical chunks, used to decide whether a quoted excerpt
 can be cited. It never sees the server's chunks: it recomputes the cuts and must agree with them.
 */
module ExcerptCheck {
  import opened Utf16
  import opened Wrappers
  import opened Chunker

  datatype Advice = Suggested | Ambiguous | Unsupported

  /** `t.indexOf(part, start)`. */
  function IndexOf(t: Text, part: Text, start: nat): (r: Option<nat>)
    ensures r.Some? ==> start <= r.value && OccursAt(t, part, r.value)
    ensures r.Some? ==> forall i | start <= i < r.value :: !OccursAt(t, part, i)
    ensures r.None? ==> forall i | start <= i :: !OccursAt(t, part, i)
    decreases |t| - start
  {
    if start + |part| > |t| then None
    else if OccursAt(t, part, start) then Some(start)
    else IndexOf(t, part, start + 1)
  }

  /** Scalar offsets of the match at code-unit position `i`. */
  function ScalarStart(t: Text, i: nat): nat
    requires i <= |t|
  {
    |Scalars(t[..i])|
  }

  predicate Holds(c: Chunk, start: nat, end: nat) {
    c.startOffset <= start && end <= c.endOffset
  }

  /** Some chunk of the server's chunking of `s` holds all of the scalars `[start, end)`. */
  ghost predicate InsideOneChunk(s: seq<Text>, start: nat, end: nat, ws: Text -> bool, hash: Text -> Digest) {
    exists c | c in ChunksFrom(s, 0, 0, ws, hash) :: Holds(c, start, end)
  }

  /** The web copy of `chooseBoundary` does the same three scans; it is the same function. */
  method ChooseCanonicalChunkBoundary(scalars: seq<Text>, start: nat, maximumEnd: nat, ws: Text -> bool) returns (end: nat)
    requires start < maximumEnd <= |scalars|
    ensures end == start + Boundary(scalars[start..maximumEnd], ws)
  {
    end := ChooseBoundary(scalars, start, maximumEnd, ws);
  }

  /** The web walk from `chunkStart` on, as the loop below decides it. */
  predicate WalkFinds(s: seq<Text>, chunkStart: nat, start: nat, end: nat, ws: Text -> bool)
    requires chunkStart <= |s|
    decreases |s| - chunkStart
  {
    chunkStart < |s| &&
    var chunkEnd := EndOf(s, chunkStart, ws);
    if start >= chunkStart && end <= chunkEnd then true
    else if start < chunkEnd && end > chunkEnd then false
    else WalkFinds(s, chunkEnd, start, end, ws)
  }

  lemma {:induction false} ChunksStartAtOrAfter(s: seq<Text>, from: nat, index: nat, ws: Text -> bool, hash: Text -> Digest)
    requires from <= |s|
    ensures forall c | c in ChunksFrom(s, from, index, ws, hash) :: from <= c.startOffset
    decreases |s| - from
  {
    if from < |s| {
      ChunksStartAtOrAfter(s, EndOf(s, from, ws), index + 1, ws, hash);
    }
  }

  /** The walk, which may stop early, finds a chunk exactly when the server has one. */
  lemma {:induction false} WalkAgreesWithServer(s: seq<Text>, from: nat, index: nat, start: nat, end: nat, ws: Text -> bool, hash: Text -> Digest)
    requires from <= |s|
    ensures WalkFinds(s, from, start, end, ws)
       <==> exists c | c in ChunksFrom(s, from, index, ws, hash) :: Holds(c, start, end)
    decreases |s| - from
  {
    if from < |s| {
      var chunkEnd := EndOf(s, from, ws);
      var c, rest := ChunkOf(s, index, from, chunkEnd, hash), ChunksFrom(s, chunkEnd, index + 1, ws, hash);
      assert ChunksFrom(s, from, index, ws, hash) == [c] + rest;
      assert c in [c] + rest && forall d :: d in [c] + rest <==> d == c || d in rest;
      WalkAgreesWithServer(s, chunkEnd, index + 1, start, end, ws, hash);
      ChunksStartAtOrAfter(s, chunkEnd, index + 1, ws, hash);
    }
  }

  /** The occurrence of `excerpt` at `i` lies inside one chunk of the server's chunking. */
  ghost predicate InsideAt(source: Text, excerpt: Text, i: nat, ws: Text -> bool, hash: Text -> Digest)
    requires i <= |source|
  {
    InsideOneChunk(Scalars(source), ScalarStart(source, i), ScalarStart(source, i) + |Scalars(excerpt)|, ws, hash)
  }

  /** The first occurrence of `excerpt` lies inside one chunk of the server's chunking. */
  ghost predicate FirstInsideChunk(source: Text, excerpt: Text, ws: Text -> bool, hash: Text -> Digest) {
    IndexOf(source, excerpt, 0).Some? && InsideAt(source, excerpt, IndexOf(source, excerpt, 0).value, ws, hash)
  }

  lemma WalkDecides(source: Text, excerpt: Text, i: nat, ws: Text -> bool, hash: Text -> Digest)
    requires i <= |source|
    ensures InsideAt(source, excerpt, i, ws, hash)
       <==> WalkFinds(Scalars(source), 0, ScalarStart(source, i), ScalarStart(source, i) + |Scalars(excerpt)|, ws)
  {
    WalkDecidesInside(Scalars(source), ScalarStart(source, i), ScalarStart(source, i) + |Scalars(excerpt)|, ws, hash);
  }

  lemma WalkDecidesInside(s: seq<Text>, start: nat, end: nat, ws: Text -> bool, hash: Text -> Digest)
    ensures WalkFinds(s, 0, start, end, ws) <==> InsideOneChunk(s, start, end, ws, hash)
  {
    WalkAgreesWithServer(s, 0, 0, start, end, ws, hash);
  }

  /**
   `isExcerptWithinCanonicalChunk`: true exactly when the first occurrence lies inside one chunk of
   the server's chunking, whatever digest the server stores.
   */
  method IsExcerptWithinCanonicalChunk(source: Text, excerpt: Text, ws: Text -> bool, ghost hash: Text -> Digest)
    returns (inside: bool)
    ensures inside <==> FirstInsideChunk(source, excerpt, ws, hash)
  {
    var codeUnitStart := IndexOf(source, excerpt, 0);
    if codeUnitStart.None? {
      return false;
    }
    var scalars := Scalars(source);
    var excerptStart := |Scalars(source[..codeUnitStart.value])|;
    var excerptEnd := excerptStart + |Scalars(excerpt)|;
    WalkDecides(source, excerpt, codeUnitStart.value, ws, hash);
    var chunkStart := 0;
    while chunkStart < |scalars|
      invariant chunkStart <= |scalars|
      invariant WalkFinds(scalars, 0, excerptStart, excerptEnd, ws)
           <==> WalkFinds(scalars, chunkStart, excerptStart, excerptEnd, ws)
    {
      var limit := chunkStart + SOURCE_CHUNK_MAX_SCALARS;
      var maximumEnd := if limit < |scalars| then limit else |scalars|;
      var chunkEnd := maximumEnd;
      if maximumEnd != |scalars| {
        chunkEnd := ChooseCanonicalChunkBoundary(scalars, chunkStart, maximumEnd, ws);
      }
      assert chunkEnd == EndOf(scalars, chunkStart, ws);
      if excerptStart >= chunkStart && excerptEnd <= chunkEnd {
        return true;
      }
      if excerptStart < chunkEnd && excerptEnd > chunkEnd {
        return false;
      }
      chunkStart := chunkEnd;
    }
    return false;
  }

  /** On well-formed text the scalar offsets of the match cut the excerpt's own scalars out of the source. */
  lemma MatchedScalars(source: Text, excerpt: Text, i: nat)
    requires WellFormed(source) && WellFormed(excerpt) && excerpt != []
    requires OccursAt(source, excerpt, i)
    ensures var s, p, start := Scalars(source), Scalars(excerpt), ScalarStart(source, i);
            start + |p| <= |s| && s[start..start + |p|] == p
  {
    MatchOnScalarBoundary(source, excerpt, i);
  }

  lemma JoinOfThree(s: seq<Text>, a: nat, b: nat, c: nat, d: nat)
    requires a <= b <= c <= d <= |s|
    ensures Join(s[a..d]) == Join(s[a..b]) + Join(s[b..c]) + Join(s[c..d])
  {
    assert s[a..d] == s[a..b] + s[b..c] + s[c..d];
    JoinConcat(s[a..b] + s[b..c], s[c..d]);
    JoinConcat(s[a..b], s[b..c]);
  }

  /** `c` quotes `excerpt`: the excerpt is a contiguous part of the chunk's text. */
  ghost predicate Quotes(c: Chunk, excerpt: Text) {
    exists before, after :: c.normalizedText == before + excerpt + after
  }

  /** An excerpt judged to lie inside a chunk is a contiguous part of that chunk's text. */
  lemma InsideChunkIsQuoted(source: Text, excerpt: Text, i: nat, c: Chunk, ws: Text -> bool, hash: Text -> Digest)
    requires WellFormed(source) && WellFormed(excerpt) && excerpt != []
    requires OccursAt(source, excerpt, i)
    requires c in ChunksFrom(Scalars(source), 0, 0, ws, hash)
    requires Holds(c, ScalarStart(source, i), ScalarStart(source, i) + |Scalars(excerpt)|)
    ensures Quotes(c, excerpt)
  {
    var s, p := Scalars(source), Scalars(excerpt);
    var start := ScalarStart(source, i);
    MatchedScalars(source, excerpt, i);
    ChunksFromFit(s, 0, 0, ws, hash);
    JoinOfThree(s, c.startOffset, start, start + |p|, c.endOffset);
    JoinScalars(excerpt);
    assert c.normalizedText == Join(s[c.startOffset..start]) + excerpt + Join(s[start + |p|..c.endOffset]);
  }

  /** The number of positions from `start` on where `part` occurs (occurrences may overlap). */
  function Occurrences(t: Text, part: Text, start: nat): nat
    decreases |t| - start
  {
    if start + |part| > |t| then 0
    else (if OccursAt(t, part, start) then 1 else 0) + Occurrences(t, part, start + 1)
  }

  lemma {:induction false} OccurrencesSkip(t: Text, part: Text, start: nat, next: nat)
    requires start <= next
    requires forall i | start <= i < next :: !OccursAt(t, part, i)
    ensures Occurrences(t, part, start) == Occurrences(t, part, next)
    decreases next - start
  {
    if start < next {
      OccurrencesSkip(t, part, start + 1, next);
      if start + |part| > |t| {
        assert Occurrences(t, part, start + 1) == 0;
      }
    }
  }

  /** Exactly one occurrence: the first one, and no other position matches. */
  lemma OneOccurrence(t: Text, part: Text)
    requires IndexOf(t, part, 0).Some?
    ensures Occurrences(t, part, 0) == 1
       <==> forall i: nat | OccursAt(t, part, i) :: i == IndexOf(t, part, 0).value
  {
    var first := IndexOf(t, part, 0).value;
    OccurrencesSkip(t, part, 0, first);
    assert Occurrences(t, part, first) == 1 + Occurrences(t, part, first + 1);
    match IndexOf(t, part, first + 1)
    case None => NoOccurrence(t, part, first + 1);
    case Some(second) =>
      OccurrencesSkip(t, part, first + 1, second);
      assert OccursAt(t, part, second) && second != first;
  }

  lemma {:induction false} NoOccurrence(t: Text, part: Text, start: nat)
    requires forall i | start <= i :: !OccursAt(t, part, i)
    ensures Occurrences(t, part, start) == 0
    decreases |t| - start
  {
    if start + |part| <= |t| {
      NoOccurrence(t, part, start + 1);
    }
  }

  /** `countOccurrences`: the number of overlapping occurrences, counting no further than `stopAt`. */
  method CountOccurrences(source: Text, excerpt: Text, stopAt: nat) returns (count: nat)
    ensures count == if Occurrences(source, excerpt, 0) < stopAt then Occurrences(source, excerpt, 0) else stopAt
  {
    count := 0;
    var start := 0;
    while start + |excerpt| <= |source| && count < stopAt
      invariant count <= stopAt
      invariant count + Occurrences(source, excerpt, start) == Occurrences(source, excerpt, 0)
      decreases |source| + 1 - start
    {
      var index := IndexOf(source, excerpt, start);
      if index.None? {
        NoOccurrence(source, excerpt, start);
        break;
      }
      OccurrencesSkip(source, excerpt, start, index.value);
      count := count + 1;
      start := index.value + 1;
    }
  }

  /** The only occurrence of `excerpt` is at `i`, and it lies inside one chunk of the server's chunking. */
  ghost predicate UniqueInsideChunk(source: Text, excerpt: Text, i: nat, ws: Text -> bool, hash: Text -> Digest) {
    && OccursAt(source, excerpt, i)
    && (forall j: nat | OccursAt(source, excerpt, j) :: j == i)
    && InsideAt(source, excerpt, i, ws, hash)
  }

  lemma UniqueIsFirst(source: Text, excerpt: Text, i: nat, ws: Text -> bool, hash: Text -> Digest)
    requires UniqueInsideChunk(source, excerpt, i, ws, hash)
    ensures IndexOf(source, excerpt, 0) == Some(i) && Occurrences(source, excerpt, 0) == 1
  {
    OneOccurrence(source, excerpt);
  }

  lemma FirstIsUnique(source: Text, excerpt: Text, ws: Text -> bool, hash: Text -> Digest)
    requires Occurrences(source, excerpt, 0) == 1
    ensures IndexOf(source, excerpt, 0).Some?
    ensures forall j: nat | OccursAt(source, excerpt, j) :: j == IndexOf(source, excerpt, 0).value
  {
    if IndexOf(source, excerpt, 0).None? {
      NoOccurrence(source, excerpt, 0);
      assert false;
    }
    OneOccurrence(source, excerpt);
  }

  lemma UniqueInsideIsQuoted(source: Text, excerpt: Text, i: nat, ws: Text -> bool, hash: Text -> Digest)
    requires WellFormed(source) && WellFormed(excerpt) && excerpt != []
    requires UniqueInsideChunk(source, excerpt, i, ws, hash)
    ensures exists c | c in ChunksFrom(Scalars(source), 0, 0, ws, hash) :: Quotes(c, excerpt)
  {
    var c := ChunkAround(Scalars(source), ScalarStart(source, i), ScalarStart(source, i) + |Scalars(excerpt)|, ws, hash);
    InsideChunkIsQuoted(source, excerpt, i, c, ws, hash);
  }

  lemma ChunkAround(s: seq<Text>, start: nat, end: nat, ws: Text -> bool, hash: Text -> Digest) returns (c: Chunk)
    requires InsideOneChunk(s, start, end, ws, hash)
    ensures c in ChunksFrom(s, 0, 0, ws, hash) && Holds(c, start, end)
  {
    c :| c in ChunksFrom(s, 0, 0, ws, hash) && Holds(c, start, end);
  }

  /**
   The end of `advisePrimaryObjective`: a candidate is suggested exactly when it occurs once and
   that occurrence lies inside one chunk of the server's chunking; UniqueInsideIsQuoted then says
   that chunk quotes it.
   */
  method AdviseOnCandidate(source: Text, excerpt: Text, ws: Text -> bool, ghost hash: Text -> Digest) returns (advice: Advice)
    ensures advice == Ambiguous <==> Occurrences(source, excerpt, 0) != 1
    ensures advice == Suggested <==> exists i: nat :: UniqueInsideChunk(source, excerpt, i, ws, hash)
  {
    var count := CountOccurrences(source, excerpt, 2);
    if count != 1 {
      forall i: nat | UniqueInsideChunk(source, excerpt, i, ws, hash)
        ensures false
      {
        UniqueIsFirst(source, excerpt, i, ws, hash);
      }
      return Ambiguous;
    }
    FirstIsUnique(source, excerpt, ws, hash);
    var inside := IsExcerptWithinCanonicalChunk(source, excerpt, ws, hash);
    if !inside {
      forall i: nat | UniqueInsideChunk(source, excerpt, i, ws, hash)
        ensures false
      {
        UniqueIsFirst(source, excerpt, i, ws, hash);
      }
      return Unsupported;
    }
    assert UniqueInsideChunk(source, excerpt, IndexOf(source, excerpt, 0).value, ws, hash);
    return Suggested;
  }
}
