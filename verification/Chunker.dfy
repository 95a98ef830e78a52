/**
 The greedy source chunker and its reconstruction check. A chunk ends after the last blank line of
 its window of at most 2000 scalars, failing that after the last newline, failing that after the
 last white-space scalar, failing that at the full window; the last chunk takes whatever is left.
 The white-space class and the digest are parameters: every result holds for any choice of them.
 */
module Chunker {
  import opened Utf16
  import opened Wrappers

  const SOURCE_CHUNK_MAX_SCALARS := 2000

  const NEWLINE: Text := [10]

  type Digest = Text

  datatype Chunk = Chunk(
    chunkIndex: nat,
    startOffset: nat,
    endOffset: nat,
    normalizedText: Text,
    contentHash: Digest)

  datatype SourceTextError = InvalidSource | ReconstructionFailed | NotLossless

  /** The first `k` scalars end with a blank line: two newlines in a row. */
  predicate EndsBlankLine(w: seq<Text>, k: nat)
    requires k <= |w|
  {
    k >= 2 && w[k - 2] == NEWLINE && w[k - 1] == NEWLINE
  }

  /** The largest `k <= n` such that the first `k` scalars end with a blank line; 0 when none do. */
  function LastBlankLine(w: seq<Text>, n: nat): (end: nat)
    requires n <= |w|
    ensures end <= n
  {
    if n == 0 then 0 else if EndsBlankLine(w, n) then n else LastBlankLine(w, n - 1)
  }

  /** The largest `k <= n` such that scalar `k - 1` satisfies `p`; 0 when there is none. */
  function LastOf(w: seq<Text>, p: Text -> bool, n: nat): (end: nat)
    requires n <= |w|
    ensures end <= n
  {
    if n == 0 then 0 else if p(w[n - 1]) then n else LastOf(w, p, n - 1)
  }

  predicate IsNewline(s: Text) {
    s == NEWLINE
  }

  /** Where a chunk that starts with this window and is not the last one ends. */
  function Boundary(w: seq<Text>, ws: Text -> bool): (end: nat)
    requires w != []
    ensures 0 < end <= |w|
  {
    var blank, line, space := LastBlankLine(w, |w|), LastOf(w, IsNewline, |w|), LastOf(w, ws, |w|);
    if blank > 0 then blank else if line > 0 then line else if space > 0 then space else |w|
  }

  lemma {:induction false} LastBlankLineIsLast(w: seq<Text>, n: nat)
    requires n <= |w|
    ensures var end := LastBlankLine(w, n);
            && (end > 0 ==> EndsBlankLine(w, end))
            && (forall k | end < k <= n :: !EndsBlankLine(w, k))
  {
    if n > 0 && !EndsBlankLine(w, n) {
      LastBlankLineIsLast(w, n - 1);
    }
  }

  lemma {:induction false} LastOfIsLast(w: seq<Text>, p: Text -> bool, n: nat)
    requires n <= |w|
    ensures var end := LastOf(w, p, n);
            && (end > 0 ==> p(w[end - 1]))
            && (forall k | end <= k < n :: !p(w[k]))
  {
    if n > 0 && !p(w[n - 1]) {
      LastOfIsLast(w, p, n - 1);
    }
  }

  /**
   What a boundary is, whatever the scans: the text up to it ends with the last blank line of the
   window; with no blank line, the last newline; with no newline, the last white space; with
   neither, the window itself.
   */
  ghost predicate IsBoundary(w: seq<Text>, end: nat, ws: Text -> bool) {
    0 < end <= |w| &&
    if exists i | 0 <= i < |w| - 1 :: w[i] == NEWLINE && w[i + 1] == NEWLINE then
      && end >= 2 && w[end - 2] == NEWLINE && w[end - 1] == NEWLINE
      && forall i | end - 1 <= i < |w| - 1 :: !(w[i] == NEWLINE && w[i + 1] == NEWLINE)
    else if NEWLINE in w then
      w[end - 1] == NEWLINE && NEWLINE !in w[end..]
    else if exists s | s in w :: ws(s) then
      ws(w[end - 1]) && forall k | end <= k < |w| :: !ws(w[k])
    else end == |w|
  }

  lemma BoundaryMeaning(w: seq<Text>, ws: Text -> bool)
    requires w != []
    ensures IsBoundary(w, Boundary(w, ws), ws)
    ensures forall end | IsBoundary(w, end, ws) :: end == Boundary(w, ws)
  {
    LastBlankLineIsLast(w, |w|);
    LastOfIsLast(w, IsNewline, |w|);
    LastOfIsLast(w, ws, |w|);
    if i :| 0 <= i < |w| - 1 && w[i] == NEWLINE && w[i + 1] == NEWLINE {
      assert EndsBlankLine(w, i + 2);
    }
    forall i | 0 <= i < |w| - 1 && LastBlankLine(w, |w|) - 1 <= i
      ensures !(w[i] == NEWLINE && w[i + 1] == NEWLINE)
    {
      assert !EndsBlankLine(w, i + 2);
    }
  }

  /**
   Where a chunk ends, read off the text: the last chunk takes whatever is left, if that is at most
   2000 scalars; any other ends at the boundary of the 2000 scalars from its start.
   */
  ghost predicate EndsWhereItShould(s: seq<Text>, start: nat, end: nat, ws: Text -> bool) {
    start < end <= |s| &&
    if |s| - start <= SOURCE_CHUNK_MAX_SCALARS then end == |s|
    else IsBoundary(s[start..start + SOURCE_CHUNK_MAX_SCALARS], end - start, ws)
  }

  /** The end offset of the chunk starting at `start`. */
  function EndOf(s: seq<Text>, start: nat, ws: Text -> bool): (end: nat)
    requires start < |s|
    ensures start < end <= |s| && end <= start + SOURCE_CHUNK_MAX_SCALARS
  {
    if start + SOURCE_CHUNK_MAX_SCALARS >= |s| then |s|
    else start + Boundary(s[start..start + SOURCE_CHUNK_MAX_SCALARS], ws)
  }

  lemma EndOfMeaning(s: seq<Text>, start: nat, ws: Text -> bool)
    requires start < |s|
    ensures forall end: nat :: EndsWhereItShould(s, start, end, ws) <==> end == EndOf(s, start, ws)
  {
    if |s| - start > SOURCE_CHUNK_MAX_SCALARS {
      BoundaryMeaning(s[start..start + SOURCE_CHUNK_MAX_SCALARS], ws);
    }
  }

  function ChunkOf(s: seq<Text>, index: nat, start: nat, end: nat, hash: Text -> Digest): Chunk
    requires start <= end <= |s|
  {
    Chunk(index, start, end, Join(s[start..end]), hash(Join(s[start..end])))
  }

  /** The chunks of `s` from offset `start` on, numbered from `index`. */
  function ChunksFrom(s: seq<Text>, start: nat, index: nat, ws: Text -> bool, hash: Text -> Digest): seq<Chunk>
    requires start <= |s|
    decreases |s| - start
  {
    if start == |s| then []
    else
      var end := EndOf(s, start, ws);
      [ChunkOf(s, index, start, end, hash)] + ChunksFrom(s, end, index + 1, ws, hash)
  }

  /** The offset just before chunk `k`: where the previous chunk ended. */
  function CutBefore(chunks: seq<Chunk>, k: nat): nat
    requires k <= |chunks|
  {
    if k == 0 then 0 else chunks[k - 1].endOffset
  }

  /** `chunks` cut the scalars `s` into consecutive non-empty numbered pieces that cover all of `s`. */
  ghost predicate IsPartition(s: seq<Text>, chunks: seq<Chunk>, hash: Text -> Digest) {
    && (forall i | 0 <= i < |chunks| :: PieceFits(s, chunks, i, hash))
    && CutBefore(chunks, |chunks|) == |s|
  }

  predicate PieceFits(s: seq<Text>, chunks: seq<Chunk>, i: nat, hash: Text -> Digest)
    requires i < |chunks|
  {
    var c := chunks[i];
    && c.chunkIndex == i
    && c.startOffset == CutBefore(chunks, i)
    && c.startOffset < c.endOffset <= |s|
    && c.normalizedText == Join(s[c.startOffset..c.endOffset])
    && c.contentHash == hash(c.normalizedText)
  }

  function Texts(chunks: seq<Chunk>): (texts: seq<Text>)
    ensures |texts| == |chunks|
    ensures forall i | 0 <= i < |chunks| :: texts[i] == chunks[i].normalizedText
  {
    seq(|chunks|, i requires 0 <= i < |chunks| => chunks[i].normalizedText)
  }

  /** A partition's texts, joined, give back the text: nothing is lost, repeated or reordered. */
  lemma {:induction false} PrefixOfPartitionJoins(s: seq<Text>, chunks: seq<Chunk>, hash: Text -> Digest, k: nat)
    requires k <= |chunks|
    requires forall i | 0 <= i < |chunks| :: PieceFits(s, chunks, i, hash)
    ensures CutBefore(chunks, k) <= |s|
    ensures Join(Texts(chunks)[..k]) == Join(s[..CutBefore(chunks, k)])
  {
    if k > 0 {
      PrefixOfPartitionJoins(s, chunks, hash, k - 1);
      var c := chunks[k - 1];
      assert PieceFits(s, chunks, k - 1, hash);
      assert Texts(chunks)[..k] == Texts(chunks)[..k - 1] + [c.normalizedText];
      JoinConcat(Texts(chunks)[..k - 1], [c.normalizedText]);
      JoinOne(c.normalizedText);
      assert s[..c.endOffset] == s[..c.startOffset] + s[c.startOffset..c.endOffset];
      JoinConcat(s[..c.startOffset], s[c.startOffset..c.endOffset]);
    }
  }

  lemma JoinOne(t: Text)
    ensures Join([t]) == t
  {
    assert Join([t]) == t + Join([]);
  }

  /** A partition of the scalars of a text is lossless for the text itself. */
  lemma PartitionIsLossless(t: Text, chunks: seq<Chunk>, hash: Text -> Digest)
    requires IsPartition(Scalars(t), chunks, hash)
    ensures Join(Texts(chunks)) == t
  {
    var s := Scalars(t);
    PrefixOfPartitionJoins(s, chunks, hash, |chunks|);
    assert Texts(chunks)[..|chunks|] == Texts(chunks);
    assert s[..|s|] == s;
    JoinScalars(t);
  }

  /** `chooseBoundary`: three backward scans over the window `[start, maximumEnd)`. */
  method ChooseBoundary(scalars: seq<Text>, start: nat, maximumEnd: nat, ws: Text -> bool) returns (end: nat)
    requires start < maximumEnd <= |scalars|
    ensures end == start + Boundary(scalars[start..maximumEnd], ws)
  {
    ghost var w := scalars[start..maximumEnd];
    var index := maximumEnd - 1;
    while index > start
      invariant start <= index < maximumEnd
      invariant LastBlankLine(w, |w|) == LastBlankLine(w, index - start + 1)
    {
      if scalars[index - 1] == NEWLINE && scalars[index] == NEWLINE {
        return index + 1;
      }
      index := index - 1;
    }
    index := maximumEnd - 1;
    while index >= start
      invariant start - 1 <= index < maximumEnd
      invariant LastOf(w, IsNewline, |w|) == LastOf(w, IsNewline, index - start + 1)
    {
      if scalars[index] == NEWLINE {
        return index + 1;
      }
      index := index - 1;
    }
    index := maximumEnd - 1;
    while index >= start
      invariant start - 1 <= index < maximumEnd
      invariant LastOf(w, ws, |w|) == LastOf(w, ws, index - start + 1)
    {
      if ws(scalars[index]) {
        return index + 1;
      }
      index := index - 1;
    }
    return maximumEnd;
  }

  /** `sliceByScalarOffsets`: refuses ill-formed text and offsets outside it. */
  function SliceByScalarOffsets(t: Text, start: nat, end: nat): (r: Option<Text>)
    ensures r.Some? <==> WellFormed(t) && start < end <= |Scalars(t)|
  {
    if WellFormed(t) && start < end <= |Scalars(t)| then Some(Join(Scalars(t)[start..end])) else None
  }

  /**
   `assertChunkReconstruction`: accepts exactly the partitions of a well-formed text. Its last two
   tests, on the joined text and its digest, can then no longer fail.
   */
  method AssertChunkReconstruction(t: Text, chunks: seq<Chunk>, hash: Text -> Digest)
    returns (r: Result<(), SourceTextError>)
    ensures r.Ok? <==> WellFormed(t) && IsPartition(Scalars(t), chunks, hash)
  {
    var expectedStart := 0;
    for index := 0 to |chunks|
      invariant expectedStart == CutBefore(chunks, index)
      invariant forall i | 0 <= i < index :: PieceFits(Scalars(t), chunks, i, hash)
      invariant index > 0 ==> WellFormed(t)
    {
      var chunk := chunks[index];
      if chunk.chunkIndex != index || chunk.startOffset != expectedStart || chunk.endOffset <= chunk.startOffset {
        assert !PieceFits(Scalars(t), chunks, index, hash);
        return Err(ReconstructionFailed);
      }
      var slice := SliceByScalarOffsets(t, chunk.startOffset, chunk.endOffset);
      if slice != Some(chunk.normalizedText) || hash(chunk.normalizedText) != chunk.contentHash {
        assert WellFormed(t) ==> !PieceFits(Scalars(t), chunks, index, hash);
        return Err(ReconstructionFailed);
      }
      expectedStart := chunk.endOffset;
    }
    if expectedStart != |Scalars(t)| {
      return Err(NotLossless);
    }
    PartitionIsLossless(t, chunks, hash);
    var reconstructed := Join(Texts(chunks));
    if reconstructed != t || hash(reconstructed) != hash(t) {
      return Err(NotLossless);
    }
    return Ok(());
  }

  /** Offsets of the chunks produced from `start` on, each between 1 and 2000 scalars long. */
  lemma {:induction false} ChunksFromFit(s: seq<Text>, start: nat, index: nat, ws: Text -> bool, hash: Text -> Digest)
    requires start <= |s|
    ensures var c := ChunksFrom(s, start, index, ws, hash);
            && (start < |s| <==> c != [])
            && (c != [] ==> c[0].startOffset == start && c[|c| - 1].endOffset == |s|)
            && (forall i | 0 <= i < |c| ::
                  && c[i].startOffset < c[i].endOffset <= |s|
                  && c[i].endOffset <= c[i].startOffset + SOURCE_CHUNK_MAX_SCALARS
                  && c[i].endOffset == EndOf(s, c[i].startOffset, ws)
                  && c[i] == ChunkOf(s, index + i, c[i].startOffset, c[i].endOffset, hash))
            && (forall i | 0 < i < |c| :: c[i].startOffset == c[i - 1].endOffset)
    decreases |s| - start
  {
    if start < |s| {
      ChunksFromFit(s, EndOf(s, start, ws), index + 1, ws, hash);
    }
  }

  lemma ChunksPartition(s: seq<Text>, ws: Text -> bool, hash: Text -> Digest)
    ensures IsPartition(s, ChunksFrom(s, 0, 0, ws, hash), hash)
  {
    ChunksFromFit(s, 0, 0, ws, hash);
  }

  lemma ChunksEndWhereTheyShould(s: seq<Text>, ws: Text -> bool, hash: Text -> Digest)
    ensures forall c | c in ChunksFrom(s, 0, 0, ws, hash) :: EndsWhereItShould(s, c.startOffset, c.endOffset, ws)
  {
    ChunksFromFit(s, 0, 0, ws, hash);
    forall c | c in ChunksFrom(s, 0, 0, ws, hash)
      ensures EndsWhereItShould(s, c.startOffset, c.endOffset, ws)
    {
      EndOfMeaning(s, c.startOffset, ws);
    }
  }

  /**
   Nothing else meets the contract of the chunker: a partition whose chunks all end where they
   should is the one it returns.
   */
  lemma ChunkingIsDetermined(s: seq<Text>, chunks: seq<Chunk>, ws: Text -> bool, hash: Text -> Digest)
    ensures IsPartition(s, chunks, hash) && (forall c | c in chunks :: EndsWhereItShould(s, c.startOffset, c.endOffset, ws)) <==>
            chunks == ChunksFrom(s, 0, 0, ws, hash)
  {
    ChunksPartition(s, ws, hash);
    ChunksEndWhereTheyShould(s, ws, hash);
    if IsPartition(s, chunks, hash) && forall c | c in chunks :: EndsWhereItShould(s, c.startOffset, c.endOffset, ws) {
      ChunksAreThoseFrom(s, chunks, 0, ws, hash);
    }
  }

  lemma {:induction false} ChunksAreThoseFrom(s: seq<Text>, chunks: seq<Chunk>, k: nat, ws: Text -> bool, hash: Text -> Digest)
    requires k <= |chunks| && IsPartition(s, chunks, hash)
    requires forall c | c in chunks :: EndsWhereItShould(s, c.startOffset, c.endOffset, ws)
    ensures CutBefore(chunks, k) <= |s| && chunks[k..] == ChunksFrom(s, CutBefore(chunks, k), k, ws, hash)
    decreases |chunks| - k
  {
    if k < |chunks| {
      assert PieceFits(s, chunks, k, hash) && chunks[k] in chunks;
      EndOfMeaning(s, chunks[k].startOffset, ws);
      ChunksAreThoseFrom(s, chunks, k + 1, ws, hash);
      assert chunks[k..] == [chunks[k]] + chunks[k + 1..];
    }
  }

  /**
   `chunkNormalizedSource`: succeeds exactly on non-empty, NUL-free, well-formed text, and then the
   chunks are a partition in order, each of 1 to 2000 scalars, joining to the text, and each ends
   where it should: at the last blank line of its window, or line, or white space. The guard inside
   the loop never fires and the final reconstruction check never refuses well-formed text.
   */
  method ChunkNormalizedSource(t: Text, ws: Text -> bool, hash: Text -> Digest)
    returns (r: Result<seq<Chunk>, SourceTextError>)
    ensures r.Ok? <==> t != [] && 0 !in t && WellFormed(t)
    ensures r.Ok? ==> r.value == ChunksFrom(Scalars(t), 0, 0, ws, hash)
    ensures r.Ok? ==> IsPartition(Scalars(t), r.value, hash) && Join(Texts(r.value)) == t
    ensures r.Ok? ==> forall c | c in r.value :: 1 <= c.endOffset - c.startOffset <= SOURCE_CHUNK_MAX_SCALARS
    ensures r.Ok? ==> forall c | c in r.value :: EndsWhereItShould(Scalars(t), c.startOffset, c.endOffset, ws)
  {
    if |t| == 0 || 0 in t {
      return Err(InvalidSource);
    }
    var scalars := Scalars(t);
    var chunks: seq<Chunk> := [];
    var startOffset := 0;
    while startOffset < |scalars|
      invariant startOffset <= |scalars|
      invariant ChunksFrom(scalars, 0, 0, ws, hash) == chunks + ChunksFrom(scalars, startOffset, |chunks|, ws, hash)
    {
      var limit := startOffset + SOURCE_CHUNK_MAX_SCALARS;
      var maximumEnd := if limit < |scalars| then limit else |scalars|;
      var endOffset := maximumEnd;
      if maximumEnd != |scalars| {
        endOffset := ChooseBoundary(scalars, startOffset, maximumEnd, ws);
      }
      assert endOffset == EndOf(scalars, startOffset, ws);
      if endOffset <= startOffset {
        assert false;
      }
      var text := Join(scalars[startOffset..endOffset]);
      var chunk := Chunk(|chunks|, startOffset, endOffset, text, hash(text));
      assert ChunksFrom(scalars, startOffset, |chunks|, ws, hash)
          == [chunk] + ChunksFrom(scalars, endOffset, |chunks| + 1, ws, hash);
      chunks := chunks + [chunk];
      startOffset := endOffset;
    }
    assert chunks == ChunksFrom(scalars, 0, 0, ws, hash);
    ChunksFromFit(scalars, 0, 0, ws, hash);
    ChunksPartition(scalars, ws, hash);
    ChunksEndWhereTheyShould(scalars, ws, hash);
    PartitionIsLossless(t, chunks, hash);
    var checked := AssertChunkReconstruction(t, chunks, hash);
    if checked.Err? {
      return Err(checked.error);
    }
    return Ok(chunks);
  }

  // ----- Locality -----

  function Shift(c: Chunk, offset: nat, index: nat): Chunk {
    c.(chunkIndex := c.chunkIndex + index, startOffset := c.startOffset + offset, endOffset := c.endOffset + offset)
  }

  function ShiftAll(chunks: seq<Chunk>, offset: nat, index: nat): (shifted: seq<Chunk>)
    ensures |shifted| == |chunks|
  {
    if chunks == [] then [] else [Shift(chunks[0], offset, index)] + ShiftAll(chunks[1..], offset, index)
  }

  lemma ShiftAllCons(c: Chunk, rest: seq<Chunk>, offset: nat, index: nat)
    ensures ShiftAll([c] + rest, offset, index) == [Shift(c, offset, index)] + ShiftAll(rest, offset, index)
  {
    assert ([c] + rest)[1..] == rest;
  }

  lemma ChunksFromStep(s: seq<Text>, start: nat, index: nat, ws: Text -> bool, hash: Text -> Digest)
    requires start < |s|
    ensures ChunksFrom(s, start, index, ws, hash)
         == [ChunkOf(s, index, start, EndOf(s, start, ws), hash)] + ChunksFrom(s, EndOf(s, start, ws), index + 1, ws, hash)
  {
  }

  lemma EndOfSuffix(s: seq<Text>, cut: nat, start: nat, ws: Text -> bool)
    requires cut + start < |s|
    ensures EndOf(s, cut + start, ws) == cut + EndOf(s[cut..], start, ws)
  {
    if cut + start + SOURCE_CHUNK_MAX_SCALARS < |s| {
      assert s[cut + start..cut + start + SOURCE_CHUNK_MAX_SCALARS] == s[cut..][start..start + SOURCE_CHUNK_MAX_SCALARS];
    }
  }

  lemma ChunkOfSuffix(s: seq<Text>, cut: nat, start: nat, end: nat, skipped: nat, index: nat, hash: Text -> Digest)
    requires start <= end && cut + end <= |s|
    ensures ChunkOf(s, skipped + index, cut + start, cut + end, hash)
         == Shift(ChunkOf(s[cut..], index, start, end, hash), cut, skipped)
  {
    assert s[cut + start..cut + end] == s[cut..][start..end];
  }

  /** Dropping `cut` scalars from the front shifts every later chunk by `cut`. */
  lemma {:induction false} ShiftedSuffix(s: seq<Text>, cut: nat, start: nat, skipped: nat, index: nat, ws: Text -> bool, hash: Text -> Digest)
    requires cut + start <= |s|
    ensures ChunksFrom(s, cut + start, skipped + index, ws, hash)
         == ShiftAll(ChunksFrom(s[cut..], start, index, ws, hash), cut, skipped)
    decreases |s| - cut - start
  {
    var rest := s[cut..];
    if start < |rest| {
      var end := EndOf(rest, start, ws);
      EndOfSuffix(s, cut, start, ws);
      ShiftedSuffix(s, cut, end, skipped, index + 1, ws, hash);
      ShiftedStep(s, cut, start, end, skipped, index, ws, hash);
    }
  }

  lemma ShiftedStep(s: seq<Text>, cut: nat, start: nat, end: nat, skipped: nat, index: nat, ws: Text -> bool, hash: Text -> Digest)
    requires cut + start < |s| && end == EndOf(s[cut..], start, ws) && EndOf(s, cut + start, ws) == cut + end <= |s|
    requires ChunksFrom(s, cut + end, skipped + index + 1, ws, hash)
          == ShiftAll(ChunksFrom(s[cut..], end, index + 1, ws, hash), cut, skipped)
    ensures ChunksFrom(s, cut + start, skipped + index, ws, hash)
         == ShiftAll(ChunksFrom(s[cut..], start, index, ws, hash), cut, skipped)
  {
    var c, rest := ChunkOf(s[cut..], index, start, end, hash), ChunksFrom(s[cut..], end, index + 1, ws, hash);
    assert ChunksFrom(s[cut..], start, index, ws, hash) == [c] + rest by {
      ChunksFromStep(s[cut..], start, index, ws, hash);
    }
    ShiftAllCons(c, rest, cut, skipped);
    ChunkOfSuffix(s, cut, start, end, skipped, index, hash);
    ChunksFromStep(s, cut + start, skipped + index, ws, hash);
  }

  /** The chunks after the first `k` are the chunking of `s` resumed at the cut before chunk `k`. */
  lemma {:induction false} ResumeAtCut(s: seq<Text>, k: nat, ws: Text -> bool, hash: Text -> Digest)
    requires k <= |ChunksFrom(s, 0, 0, ws, hash)|
    ensures var chunks := ChunksFrom(s, 0, 0, ws, hash);
            && CutBefore(chunks, k) <= |s|
            && chunks[k..] == ChunksFrom(s, CutBefore(chunks, k), k, ws, hash)
  {
    var chunks := ChunksFrom(s, 0, 0, ws, hash);
    ChunksFromFit(s, 0, 0, ws, hash);
    if k > 0 {
      ResumeAtCut(s, k - 1, ws, hash);
      var previous := CutBefore(chunks, k - 1);
      assert chunks[k - 1..] == ChunksFrom(s, previous, k - 1, ws, hash);
      assert chunks[k - 1] == chunks[k - 1..][0];
      assert chunks[k..] == chunks[k - 1..][1..];
    }
  }

  /** Chunking the suffix from any chunk boundary gives the remaining chunks, with shifted offsets. */
  lemma SuffixLocality(s: seq<Text>, k: nat, ws: Text -> bool, hash: Text -> Digest)
    requires k <= |ChunksFrom(s, 0, 0, ws, hash)|
    ensures CutBefore(ChunksFrom(s, 0, 0, ws, hash), k) <= |s|
    ensures ChunksFrom(s, 0, 0, ws, hash)[k..]
         == ShiftAll(ChunksFrom(s[CutBefore(ChunksFrom(s, 0, 0, ws, hash), k)..], 0, 0, ws, hash), CutBefore(ChunksFrom(s, 0, 0, ws, hash), k), k)
  {
    ResumeAtCut(s, k, ws, hash);
    ShiftedFromCut(s, CutBefore(ChunksFrom(s, 0, 0, ws, hash), k), k, ws, hash);
  }

  lemma ShiftedFromCut(s: seq<Text>, cut: nat, skipped: nat, ws: Text -> bool, hash: Text -> Digest)
    requires cut <= |s|
    ensures ChunksFrom(s, cut, skipped, ws, hash) == ShiftAll(ChunksFrom(s[cut..], 0, 0, ws, hash), cut, skipped)
  {
    ShiftedSuffix(s, cut, 0, skipped, 0, ws, hash);
  }

  /** `longer` repeats every chunk of `chunks` but possibly the last. */
  predicate KeepsAllButLast(chunks: seq<Chunk>, longer: seq<Chunk>) {
    0 < |chunks| <= |longer| && chunks[..|chunks| - 1] == longer[..|chunks| - 1]
  }

  lemma KeepsAllButLastCons(c: Chunk, chunks: seq<Chunk>, longer: seq<Chunk>)
    requires KeepsAllButLast(chunks, longer)
    ensures KeepsAllButLast([c] + chunks, [c] + longer)
  {
    assert ([c] + chunks)[..|chunks|] == [c] + chunks[..|chunks| - 1];
    assert ([c] + longer)[..|chunks|] == [c] + longer[..|chunks| - 1];
  }

  /** Appending text changes no chunk except possibly the last one. */
  lemma {:induction false} AppendLocality(s: seq<Text>, more: seq<Text>, start: nat, index: nat, ws: Text -> bool, hash: Text -> Digest)
    requires start < |s|
    ensures KeepsAllButLast(ChunksFrom(s, start, index, ws, hash), ChunksFrom(s + more, start, index, ws, hash))
    decreases |s| - start
  {
    var all := s + more;
    var end := EndOf(s, start, ws);
    if start + SOURCE_CHUNK_MAX_SCALARS < |s| {
      assert s[start..start + SOURCE_CHUNK_MAX_SCALARS] == all[start..start + SOURCE_CHUNK_MAX_SCALARS];
      assert EndOf(all, start, ws) == end;
      assert s[start..end] == all[start..end];
      if end < |s| {
        AppendLocality(s, more, end, index + 1, ws, hash);
        KeepsAllButLastCons(ChunkOf(s, index, start, end, hash),
                            ChunksFrom(s, end, index + 1, ws, hash), ChunksFrom(all, end, index + 1, ws, hash));
      }
    }
    if end == |s| {
      assert |ChunksFrom(s, start, index, ws, hash)| == 1;
      assert |ChunksFrom(all, start, index, ws, hash)| >= 1;
    }
  }
}
