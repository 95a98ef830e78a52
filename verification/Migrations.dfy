/**
 The migration runner: a journal of applied files, validated before every run, and a loop that
 applies each unrecorded file in a transaction of its own. A run may fail or crash at any point;
 an advisory lock keeps runs apart.
 */
module Migrations {
  import opened Utf16
  import opened Wrappers
  import opened KeyOrder
  import opened ErrorCodes

  datatype File = File(name: Text, sql: Text)

  datatype Row = Row(id: Text, checksum: Text, appliedAt: int)

  ghost predicate AscendingFiles(files: seq<File>) {
    forall i, j | 0 <= i < j < |files| :: KeyLess(files[i].name, files[j].name)
  }

  ghost predicate AscendingRows(rows: seq<Row>) {
    forall i, j | 0 <= i < j < |rows| :: KeyLess(rows[i].id, rows[j].id)
  }

  // ----- The chronological order of the journal -----

  /** A comparison of names such as `localeCompare`: negative, zero or positive. */
  type Comparison = (Text, Text) -> int

  /** Opposite signs on exchange, and transitive; names it cannot tell apart compare as zero. */
  ghost predicate IsComparison(compare: Comparison) {
    && (forall a, b :: compare(a, b) < 0 <==> compare(b, a) > 0)
    && (forall a, b, c | compare(a, b) <= 0 && compare(b, c) <= 0 :: compare(a, c) <= 0)
  }

  /** Earlier, or at the same time with the smaller id as `compare` has it. */
  predicate Precedes(compare: Comparison, a: Row, b: Row) {
    a.appliedAt < b.appliedAt || (a.appliedAt == b.appliedAt && compare(a.id, b.id) < 0)
  }

  function InsertRow(compare: Comparison, row: Row, rows: seq<Row>): seq<Row> {
    if |rows| == 0 || !Precedes(compare, rows[0], row) then [row] + rows else [rows[0]] + InsertRow(compare, row, rows[1..])
  }

  /** The rows sorted by time, then id; rows that compare alike keep their order. */
  function Chronological(compare: Comparison, rows: seq<Row>): seq<Row> {
    if |rows| == 0 then [] else InsertRow(compare, rows[0], Chronological(compare, rows[1..]))
  }

  ghost predicate InTimeOrder(rows: seq<Row>) {
    forall i, j | 0 <= i < j < |rows| :: rows[i].appliedAt <= rows[j].appliedAt
  }

  /** Neighbours applied at the same time stand as `compare` has them. */
  ghost predicate TiesAgree(compare: Comparison, rows: seq<Row>) {
    forall i, j | 0 <= i && j == i + 1 && j < |rows| && rows[i].appliedAt == rows[j].appliedAt :: compare(rows[i].id, rows[j].id) <= 0
  }

  ghost predicate Sorted(compare: Comparison, rows: seq<Row>) {
    forall i, j | 0 <= i < j < |rows| :: !Precedes(compare, rows[j], rows[i])
  }

  lemma NotAfterIsTransitive(compare: Comparison, a: Row, b: Row, c: Row)
    requires IsComparison(compare) && !Precedes(compare, b, a) && !Precedes(compare, c, b)
    ensures !Precedes(compare, c, a)
  {
  }

  lemma {:induction false} InsertRowMembers(compare: Comparison, row: Row, rows: seq<Row>)
    ensures |InsertRow(compare, row, rows)| == |rows| + 1
    ensures forall r :: r in InsertRow(compare, row, rows) <==> r == row || r in rows
  {
    if |rows| > 0 && Precedes(compare, rows[0], row) {
      InsertRowMembers(compare, row, rows[1..]);
      assert forall r :: r in rows <==> r == rows[0] || r in rows[1..];
    }
  }

  lemma {:induction false} InsertRowSorts(compare: Comparison, row: Row, rows: seq<Row>)
    requires IsComparison(compare) && Sorted(compare, rows)
    ensures Sorted(compare, InsertRow(compare, row, rows))
  {
    if |rows| > 0 && Precedes(compare, rows[0], row) {
      var tail := rows[1..];
      assert forall i | 0 <= i < |tail| :: tail[i] == rows[i + 1];
      InsertRowSorts(compare, row, tail);
      InsertRowMembers(compare, row, tail);
      var inserted := InsertRow(compare, row, tail);
      forall j | 0 <= j < |inserted|
        ensures !Precedes(compare, inserted[j], rows[0])
      {
        assert inserted[j] in inserted;
        if inserted[j] != row {
          var k :| 0 <= k < |tail| && tail[k] == inserted[j];
        }
      }
    } else if |rows| > 0 {
      forall j | 0 < j < |rows|
        ensures !Precedes(compare, rows[j], row)
      {
        NotAfterIsTransitive(compare, row, rows[0], rows[j]);
      }
    }
  }

  lemma {:induction false} ChronologicalSorts(compare: Comparison, rows: seq<Row>)
    requires IsComparison(compare)
    ensures Sorted(compare, Chronological(compare, rows)) && |Chronological(compare, rows)| == |rows|
    ensures forall r :: r in Chronological(compare, rows) <==> r in rows
  {
    if |rows| > 0 {
      ChronologicalSorts(compare, rows[1..]);
      InsertRowSorts(compare, rows[0], Chronological(compare, rows[1..]));
      InsertRowMembers(compare, rows[0], Chronological(compare, rows[1..]));
      assert forall r :: r in rows <==> r == rows[0] || r in rows[1..];
    }
  }

  lemma {:induction false} SortedRowsStay(compare: Comparison, rows: seq<Row>)
    requires Sorted(compare, rows)
    ensures Chronological(compare, rows) == rows
  {
    if |rows| > 0 {
      var tail := rows[1..];
      assert forall i | 0 <= i < |tail| :: tail[i] == rows[i + 1];
      SortedRowsStay(compare, tail);
    }
  }

  /** For sorting it is enough that times never decrease and tied neighbours agree. */
  lemma {:induction false} NeighboursDecide(compare: Comparison, rows: seq<Row>)
    requires IsComparison(compare)
    ensures Sorted(compare, rows) <==> InTimeOrder(rows) && TiesAgree(compare, rows)
  {
    if |rows| > 1 {
      var tail := rows[1..];
      assert forall i | 0 <= i < |tail| :: tail[i] == rows[i + 1];
      NeighboursDecide(compare, tail);
      if InTimeOrder(rows) && TiesAgree(compare, rows) {
        assert TiesAgree(compare, tail);
        HeadIsFirst(compare, rows);
      }
      if Sorted(compare, rows) {
        SortedTiesAgree(compare, rows);
      }
    }
  }

  lemma HeadIsFirst(compare: Comparison, rows: seq<Row>)
    requires IsComparison(compare) && |rows| > 1 && Sorted(compare, rows[1..])
    requires InTimeOrder(rows) && TiesAgree(compare, rows)
    ensures Sorted(compare, rows)
  {
    var tail := rows[1..];
    assert forall i | 0 <= i < |tail| :: tail[i] == rows[i + 1];
    assert !Precedes(compare, rows[1], rows[0]);
    forall i, j | 0 <= i < j < |rows|
      ensures !Precedes(compare, rows[j], rows[i])
    {
      if i == 0 && j > 1 {
        assert !Precedes(compare, tail[j - 1], tail[0]);
        NotAfterIsTransitive(compare, rows[0], rows[1], rows[j]);
      } else if i > 0 {
        assert !Precedes(compare, tail[j - 1], tail[i - 1]);
      }
    }
  }

  lemma SortedTiesAgree(compare: Comparison, rows: seq<Row>)
    requires IsComparison(compare) && Sorted(compare, rows)
    ensures InTimeOrder(rows) && TiesAgree(compare, rows)
  {
    forall i, j | 0 <= i < j < |rows|
      ensures rows[i].appliedAt <= rows[j].appliedAt
    {
      assert !Precedes(compare, rows[j], rows[i]);
    }
    forall i, j | 0 <= i && j == i + 1 && j < |rows| && rows[i].appliedAt == rows[j].appliedAt
      ensures compare(rows[i].id, rows[j].id) <= 0
    {
      assert !Precedes(compare, rows[j], rows[i]);
    }
  }

  /**
   Sorting by time and then by name, as `compare` has it, leaves the ids where they are exactly when
   the times never decrease and neighbours applied at the same time agree with `compare`.
   */
  lemma ChronologyCheckIsExact(compare: Comparison, rows: seq<Row>)
    requires IsComparison(compare) && AscendingRows(rows)
    ensures |Chronological(compare, rows)| == |rows|
    ensures (forall i | 0 <= i < |rows| :: Chronological(compare, rows)[i].id == rows[i].id) <==>
            InTimeOrder(rows) && TiesAgree(compare, rows)
  {
    ChronologicalSorts(compare, rows);
    NeighboursDecide(compare, rows);
    var sorted := Chronological(compare, rows);
    if Sorted(compare, rows) {
      SortedRowsStay(compare, rows);
    }
    if forall i | 0 <= i < |rows| :: sorted[i].id == rows[i].id {
      SameIdsSameRows(rows, sorted);
    }
  }

  /** Ids tell the rows apart, so rows drawn from `rows` with the same ids in the same places are `rows`. */
  lemma SameIdsSameRows(rows: seq<Row>, sorted: seq<Row>)
    requires AscendingRows(rows) && |sorted| == |rows| && forall r | r in sorted :: r in rows
    requires forall i | 0 <= i < |rows| :: sorted[i].id == rows[i].id
    ensures sorted == rows
  {
    forall i | 0 <= i < |rows|
      ensures sorted[i] == rows[i]
    {
      assert sorted[i] in sorted;
      var k :| 0 <= k < |rows| && rows[k] == sorted[i];
      RowOfId(rows, i, k);
    }
  }

  lemma RowOfId(rows: seq<Row>, i: nat, k: nat)
    requires AscendingRows(rows) && i < |rows| && k < |rows| && rows[i].id == rows[k].id
    ensures i == k
  {
    KeyOrderIsTotal(rows[i].id, rows[k].id);
  }

  // ----- Validation -----

  function Names(files: seq<File>): (names: seq<Text>)
    ensures |names| == |files| && forall i | 0 <= i < |files| :: names[i] == files[i].name
  {
    seq(|files|, i requires 0 <= i < |files| => files[i].name)
  }

  /** The journal records a prefix of the files, with their checksums. */
  ghost predicate IsPrefix(files: seq<File>, sha: Text -> Text, rows: seq<Row>) {
    && |rows| <= |files|
    && forall i | 0 <= i < |rows| :: rows[i].id == files[i].name && rows[i].checksum == sha(files[i].sql)
  }

  /** The same, in non-decreasing time, with tied neighbours in the order of `compare`. */
  ghost predicate JournalFits(files: seq<File>, sha: Text -> Text, compare: Comparison, rows: seq<Row>) {
    IsPrefix(files, sha, rows) && InTimeOrder(rows) && TiesAgree(compare, rows)
  }

  function ChecksumOf(files: seq<File>, sha: Text -> Text, name: Text): (checksum: Option<Text>)
    ensures checksum.None? <==> forall f | f in files :: f.name != name
    ensures checksum.Some? ==> exists f | f in files :: f.name == name && checksum.value == sha(f.sql)
  {
    if |files| == 0 then None
    else if files[0].name == name then assert files[0] in files; Some(sha(files[0].sql))
    else
      assert forall f | f in files :: f == files[0] || f in files[1..];
      ChecksumOf(files[1..], sha, name)
  }

  lemma ChecksumOfFile(files: seq<File>, sha: Text -> Text, i: nat)
    requires AscendingFiles(files) && i < |files|
    ensures ChecksumOf(files, sha, files[i].name) == Some(sha(files[i].sql))
  {
    var checksum := ChecksumOf(files, sha, files[i].name);
    assert files[i] in files;
    var f :| f in files && f.name == files[i].name && checksum.value == sha(f.sql);
    var k :| 0 <= k < |files| && files[k] == f;
    KeyOrderIsTotal(files[k].name, files[i].name);
  }

  method CheckChecksums(files: seq<File>, sha: Text -> Text, rows: seq<Row>) returns (ok: bool)
    ensures ok <==> forall i | 0 <= i < |rows| :: ChecksumOf(files, sha, rows[i].id) == Some(rows[i].checksum)
  {
    for n := 0 to |rows|
      invariant forall i | 0 <= i < n :: ChecksumOf(files, sha, rows[i].id) == Some(rows[i].checksum)
    {
      if ChecksumOf(files, sha, rows[n].id) != Some(rows[n].checksum) {
        return false;
      }
    }
    ok := true;
  }

  /** Each id stands where the expected one stands; past the last expected one there is nothing to match. */
  method CheckOrder(expected: seq<Text>, rows: seq<Row>) returns (ok: bool)
    ensures ok <==> |rows| <= |expected| && forall i | 0 <= i < |rows| :: rows[i].id == expected[i]
  {
    for n := 0 to |rows|
      invariant n <= |expected| && forall i | 0 <= i < n :: rows[i].id == expected[i]
    {
      if n >= |expected| || rows[n].id != expected[n] {
        return false;
      }
    }
    ok := true;
  }

  lemma ChecksumsOfPrefix(files: seq<File>, sha: Text -> Text, rows: seq<Row>)
    requires AscendingFiles(files) && |rows| <= |files| && forall i | 0 <= i < |rows| :: rows[i].id == files[i].name
    ensures (forall i | 0 <= i < |rows| :: ChecksumOf(files, sha, rows[i].id) == Some(rows[i].checksum)) <==>
            forall i | 0 <= i < |rows| :: rows[i].checksum == sha(files[i].sql)
  {
    forall i | 0 <= i < |rows|
      ensures ChecksumOf(files, sha, rows[i].id) == Some(sha(files[i].sql))
    {
      ChecksumOfFile(files, sha, i);
    }
  }

  // ----- The same checks on a fixed sublist -----

  function OnlyRows(rows: seq<Row>, listed: seq<Text>): seq<Row> {
    if |rows| == 0 then []
    else OnlyRows(rows[..|rows| - 1], listed) + if rows[|rows| - 1].id in listed then [rows[|rows| - 1]] else []
  }

  function OnlyNames(names: seq<Text>, listed: seq<Text>): seq<Text> {
    if |names| == 0 then []
    else OnlyNames(names[..|names| - 1], listed) + if names[|names| - 1] in listed then [names[|names| - 1]] else []
  }

  /** The rows of listed migrations are the first of the list, in its order. */
  ghost predicate SublistFits(listed: seq<Text>, rows: seq<Row>) {
    var found := OnlyRows(rows, listed);
    |found| <= |listed| && forall i | 0 <= i < |found| :: found[i].id == listed[i]
  }

  /** The listed migrations among the files are the first of the list, in its order. */
  ghost predicate SublistPresent(listed: seq<Text>, files: seq<File>) {
    var present := OnlyNames(Names(files), listed);
    |present| <= |listed| && forall i | 0 <= i < |present| :: present[i] == listed[i]
  }

  /** The rows of a sublist are rows, in the same order. */
  lemma {:induction false} SublistKeepsOrder(compare: Comparison, rows: seq<Row>, listed: seq<Text>)
    requires AscendingRows(rows) && Sorted(compare, rows)
    ensures AscendingRows(OnlyRows(rows, listed)) && Sorted(compare, OnlyRows(rows, listed))
    ensures forall r | r in OnlyRows(rows, listed) :: r in rows
  {
    if |rows| > 0 {
      var front, last := rows[..|rows| - 1], rows[|rows| - 1];
      SublistKeepsOrder(compare, front, listed);
      forall r | r in OnlyRows(front, listed)
        ensures KeyLess(r.id, last.id) && !Precedes(compare, last, r)
      {
        var k :| 0 <= k < |front| && front[k] == r;
        assert rows[k] == r;
      }
      assert forall k | 0 <= k < |OnlyRows(front, listed)| :: OnlyRows(front, listed)[k] in OnlyRows(front, listed);
    }
  }

  /** The listed rows of a prefix are a prefix of the listed names. */
  lemma {:induction false} SublistOfPrefix(names: seq<Text>, rows: seq<Row>, listed: seq<Text>)
    requires |rows| <= |names| && forall i | 0 <= i < |rows| :: rows[i].id == names[i]
    ensures var expected, found := OnlyNames(names, listed), OnlyRows(rows, listed);
            |found| <= |expected| && forall i | 0 <= i < |found| :: found[i].id == expected[i]
    decreases |names|
  {
    if |names| > 0 {
      var front := names[..|names| - 1];
      if |rows| < |names| {
        SublistOfPrefix(front, rows, listed);
      } else {
        SublistOfWhole(front, rows[..|rows| - 1], listed);
      }
    }
  }

  lemma {:induction false} SublistOfWhole(names: seq<Text>, rows: seq<Row>, listed: seq<Text>)
    requires |rows| == |names| && forall i | 0 <= i < |rows| :: rows[i].id == names[i]
    ensures |OnlyRows(rows, listed)| == |OnlyNames(names, listed)|
    ensures forall i | 0 <= i < |OnlyRows(rows, listed)| :: OnlyRows(rows, listed)[i].id == OnlyNames(names, listed)[i]
  {
    if |names| > 0 {
      SublistOfWhole(names[..|names| - 1], rows[..|rows| - 1], listed);
    }
  }

  /** A journal of all the files, one millisecond apart. */
  function FullJournal(files: seq<File>, sha: Text -> Text): seq<Row> {
    seq(|files|, i requires 0 <= i < |files| => Row(files[i].name, sha(files[i].sql), i))
  }

  /**
   The separate checks of the B1 list never refuse a journal that the checks of the whole accept,
   exactly when the B1 files in the directory are the first of that list.
   */
  lemma B1ChecksNeverDecide(files: seq<File>, sha: Text -> Text, compare: Comparison, b1: seq<Text>)
    ensures (forall rows | JournalFits(files, sha, compare, rows) :: SublistFits(b1, rows)) <==> SublistPresent(b1, files)
  {
    if SublistPresent(b1, files) {
      forall rows | JournalFits(files, sha, compare, rows)
        ensures SublistFits(b1, rows)
      {
        SublistOfPrefix(Names(files), rows, b1);
      }
    } else {
      var rows := FullJournal(files, sha);
      assert JournalFits(files, sha, compare, rows);
      SublistOfWhole(Names(files), rows, b1);
      assert !SublistFits(b1, rows);
    }
  }

  lemma PrefixAscends(files: seq<File>, sha: Text -> Text, rows: seq<Row>)
    requires AscendingFiles(files) && IsPrefix(files, sha, rows)
    ensures AscendingRows(rows)
  {
  }

  /**
   `validateMigrationJournal` up to the structure of the journal table. `compare` is the locale
   comparison of names, and `b1` the fixed list of B1 migrations.
   */
  method ValidateJournal(files: seq<File>, sha: Text -> Text, compare: Comparison, b1: seq<Text>, rows: seq<Row>) returns (ok: bool)
    requires AscendingFiles(files) && IsComparison(compare)
    ensures ok <==> JournalFits(files, sha, compare, rows) && SublistFits(b1, rows)
  {
    ok := ValidateOrder(files, sha, compare, rows);
    if !ok {
      return;
    }
    PrefixAscends(files, sha, rows);
    NeighboursDecide(compare, rows);
    SublistKeepsOrder(compare, rows, b1);
    var b1Rows := OnlyRows(rows, b1);
    SortedRowsStay(compare, b1Rows);
    var inOrder := CheckOrder(b1, b1Rows);
    var inTime := CheckOrder(b1, Chronological(compare, b1Rows));
    ok := inOrder && inTime;
  }

  /** The checks of the whole journal. */
  method ValidateOrder(files: seq<File>, sha: Text -> Text, compare: Comparison, rows: seq<Row>) returns (ok: bool)
    requires AscendingFiles(files) && IsComparison(compare)
    ensures ok <==> JournalFits(files, sha, compare, rows)
  {
    var checksums := CheckChecksums(files, sha, rows);
    var order := CheckOrder(Names(files), rows);
    if order {
      ChecksumsOfPrefix(files, sha, rows);
    }
    if !checksums || !order {
      return false;
    }
    PrefixAscends(files, sha, rows);
    ChronologyCheckIsExact(compare, rows);
    ok := CheckOrder(Names(files), Chronological(compare, rows));
  }

  // ----- A comparison that is not the order of the files -----

  /** Letters alike in either case, as a locale has them. */
  const IGNORING_CASE: Comparison :=
    (a: Text, b: Text) =>
      var x, y := ToLowerCase(a), ToLowerCase(b);
      if x == y then 0 else if KeyLess(x, y) then -1 else 1

  lemma IgnoringCaseCompares()
    ensures IsComparison(IGNORING_CASE)
  {
    forall a: Text, b: Text
      ensures IGNORING_CASE(a, b) < 0 <==> IGNORING_CASE(b, a) > 0
    {
      KeyOrderIsTotal(ToLowerCase(a), ToLowerCase(b));
    }
    forall a: Text, b: Text, c: Text | IGNORING_CASE(a, b) <= 0 && IGNORING_CASE(b, c) <= 0
      ensures IGNORING_CASE(a, c) <= 0
    {
      var x, y, z := ToLowerCase(a), ToLowerCase(b), ToLowerCase(c);
      if x != y && y != z {
        KeyOrderIsTransitive(x, y, z);
      }
    }
  }

  /** "B" and "a": the files are sorted by code unit, the tie is broken without regard to case. */
  lemma TiesCanRefuse(sha: Text -> Text)
    ensures IsComparison(IGNORING_CASE)
    ensures exists files, rows ::
              && AscendingFiles(files) && IsPrefix(files, sha, rows) && InTimeOrder(rows)
              && !JournalFits(files, sha, IGNORING_CASE, rows)
  {
    IgnoringCaseCompares();
    var upper: Text, lower: Text := [0x42], [0x61];
    var files := [File(upper, []), File(lower, [])];
    var rows := [Row(upper, sha([]), 0), Row(lower, sha([]), 0)];
    assert ToLowerCase(upper) == [0x62] && ToLowerCase(lower) == [0x61];
    KeyOrderIsTotal(ToLowerCase(upper), ToLowerCase(lower));
    assert IGNORING_CASE(upper, lower) == 1;
    assert rows[0].appliedAt == rows[1].appliedAt && IGNORING_CASE(rows[0].id, rows[1].id) > 0;
    assert !TiesAgree(IGNORING_CASE, rows);
    assert KeyLess(upper, lower) && AscendingFiles(files);
    assert IsPrefix(files, sha, rows) && InTimeOrder(rows);
  }

  // ----- Running -----

  /** Where the transaction for one file can go wrong. */
  datatype Fault = NoFault | Rejected | CrashBeforeCommit | CrashAfterCommit

  /** A run that stops at file `at` has recorded the files before it, and `at` itself only if it crashed after its commit. */
  ghost predicate StopsCleanly(before: seq<Row>, rows: seq<Row>, at: nat, fault: Fault) {
    if at < |before| then rows == before
    else |rows| == at || (fault.CrashAfterCommit? && |rows| == at + 1)
  }

  datatype RunResult = RunResult(applied: seq<Text>, skipped: seq<Text>)

  datatype RunError = JournalInvalid | Failed(at: nat)

  /** An empty name, like none, asks for all files. */
  predicate IsRequested(through: Option<Text>, name: Text) {
    through.None? || through.value == [] || !KeyLess(through.value, name)
  }

  /** Everything is asked for, or this very file, or one that sorts after it. */
  ghost predicate IsUpTo(through: Option<Text>, name: Text) {
    through.None? || through.value == [] || name == through.value || ComesBefore(name, through.value)
  }

  /** The files up to and including `through`. */
  function Requested(files: seq<File>, through: Option<Text>): (requested: seq<File>)
    ensures |requested| <= |files| && requested == files[..|requested|]
  {
    if |files| == 0 || !IsRequested(through, files[0].name) then []
    else [files[0]] + Requested(files[1..], through)
  }

  lemma UpToIsRequested(through: Option<Text>, name: Text)
    ensures IsRequested(through, name) <==> IsUpTo(through, name)
  {
    if through.Some? {
      KeyLessMeaning(name, through.value);
      KeyOrderIsTotal(name, through.value);
    }
  }

  /** Because the files ascend, filtering by name keeps a prefix: every file kept, and no other, is requested. */
  lemma {:induction false} RequestedAreThoseUpTo(files: seq<File>, through: Option<Text>)
    requires AscendingFiles(files)
    ensures forall i | 0 <= i < |files| :: i < |Requested(files, through)| <==> IsUpTo(through, files[i].name)
  {
    if |files| > 0 {
      var tail := files[1..];
      assert forall i | 0 <= i < |tail| :: tail[i] == files[i + 1];
      RequestedAreThoseUpTo(tail, through);
      UpToIsRequested(through, files[0].name);
      forall i | 0 < i < |files|
        ensures i < |Requested(files, through)| <==> IsUpTo(through, files[i].name)
      {
        UpToIsRequested(through, files[i].name);
        assert tail[i - 1] == files[i];
        if !IsRequested(through, files[0].name) {
          KeyOrderIsTransitive(through.value, files[0].name, files[i].name);
        }
      }
    }
  }

  /** The schema after executing the files in order, if each of them executes. */
  function Replay<S>(exec: (S, Text) -> Option<S>, base: S, files: seq<File>): Option<S> {
    if |files| == 0 then Some(base)
    else
      var before := Replay(exec, base, files[..|files| - 1]);
      if before.None? then None else exec(before.value, files[|files| - 1].sql)
  }

  class Database<S(!new)> {
    const exec: (S, Text) -> Option<S>
    const sha: Text -> Text
    const compare: Comparison  // the locale comparison of names
    const b1: seq<Text>        // the fixed list of B1 migrations
    const base: S
    var schema: S
    var journal: seq<Row>
    ghost var log: seq<File>  // the files whose transactions committed

    /** The journal names the files that made the schema what it is. */
    ghost predicate Valid()
      reads this
    {
      && Replay(exec, base, log) == Some(schema)
      && |journal| == |log|
      && (forall i | 0 <= i < |log| :: journal[i].id == log[i].name && journal[i].checksum == sha(log[i].sql))
      && AscendingFiles(log)
    }

    constructor (exec: (S, Text) -> Option<S>, sha: Text -> Text, compare: Comparison, b1: seq<Text>, base: S)
      ensures Valid() && journal == [] && log == [] && fresh(this)
      ensures this.exec == exec && this.sha == sha && this.compare == compare && this.b1 == b1 && this.base == base
    {
      this.exec, this.sha, this.compare, this.b1, this.base := exec, sha, compare, b1, base;
      schema, journal, log := base, [], [];
    }

    /** The transaction of one file: execute, record, commit. False when the run stops here. */
    method ApplyFile(file: File, fault: Fault, now: int) returns (ok: bool)
      requires Valid() && AscendingFiles(log + [file])
      modifies this`schema, this`journal, this`log
      ensures Valid()
      ensures ok ==> fault.NoFault? && exec(old(schema), file.sql).Some?
      ensures fault.NoFault? && exec(old(schema), file.sql).Some? ==> ok
      ensures ok ==> log == old(log) + [file] && journal == old(journal) + [Row(file.name, sha(file.sql), now)]
      ensures fault.CrashAfterCommit? && exec(old(schema), file.sql).Some? ==>
                log == old(log) + [file] && journal == old(journal) + [Row(file.name, sha(file.sql), now)]
      ensures fault.Rejected? || fault.CrashBeforeCommit? || exec(old(schema), file.sql).None? ==>
                log == old(log) && journal == old(journal) && schema == old(schema)
    {
      if fault.Rejected? {
        return false;
      }
      var next := exec(schema, file.sql);
      if next.None? || fault.CrashBeforeCommit? {
        return false;
      }
      schema := next.value;
      journal := journal + [Row(file.name, sha(file.sql), now)];
      log := log + [file];
      assert log[..|log| - 1] == old(log);
      ok := fault.NoFault?;
    }

    /** The committed state is what a prefix of the files makes of it. */
    ghost predicate IsAt(files: seq<File>)
      reads this
    {
      Valid() && IsPrefix(files, sha, journal) && log == files[..|journal|]
    }

    /** The journal passes the validation of the next run. */
    ghost predicate IsAcceptable(files: seq<File>)
      reads this
    {
      JournalFits(files, sha, compare, journal) && SublistFits(b1, journal)
    }

    /** One turn of the loop: skip a recorded file, apply another. */
    method HandleFile(files: seq<File>, n: nat, fault: Fault, now: int, ghost good: bool, ghost strict: bool) returns (turn: Turn)
      requires good ==> AllExecute(exec, base, files, n + 1)
      requires IsAt(files) && AscendingFiles(files) && n < |files| && n <= |journal|
      modifies this`schema, this`journal, this`log
      ensures IsAt(files)
      ensures old(CanFollow(compare, files, journal, strict, now)) ==> IsOrdered(compare, journal) && AllBefore(journal, now)
      ensures turn.Skipped? ==> n < |old(journal)| && journal == old(journal) && schema == old(schema)
      ensures turn.Applied? ==> n == |old(journal)| && |journal| == n + 1
      ensures |old(journal)| <= |journal|
      ensures turn.Stopped? ==> StopsCleanly(old(journal), journal, n, fault)
      ensures fault.NoFault? && n < |old(journal)| ==> turn.Skipped?
      ensures fault.NoFault? && good ==> !turn.Stopped?
    {
      RecordedExactly(files, sha, journal, n);
      if IsRecorded(journal, files[n].name) {
        return if fault.NoFault? then Skipped else Stopped;
      }
      assert log + [files[n]] == files[..n + 1] && files[..n + 1][..n] == log;
      JournalGrows(files, sha, journal, now);
      if CanFollow(compare, files, journal, strict, now) {
        OrderGrows(compare, files, sha, journal, strict, now);
      }
      var ok := ApplyFile(files[n], fault, now);
      turn := if ok then Applied else Stopped;
    }

    /**
     `applyMigrations` without a reset. `fault(i)` and `now(i)` are what befalls file `i` and when.
     However the run ends, the journal is again a prefix of the files with their checksums, and the
     schema is what that prefix makes of it. A run that succeeds has skipped what was recorded and
     applied the rest of what was requested; a repeat applies nothing. The journal passes the next
     validation if the clock moves between files, or if it does not run backwards and the locale
     orders the files as they are sorted; and if the B1 files are the first of their list.
     */
    method ApplyMigrations(files: seq<File>, through: Option<Text>, fault: nat -> Fault, now: nat -> int)
      returns (r: Result<RunResult, RunError>)
      requires Valid() && AscendingFiles(files)
      requires Injective(sha) && IsComparison(compare)
      modifies this`schema, this`journal, this`log
      ensures Valid()
      ensures r == Err(JournalInvalid) <==> !old(IsAcceptable(files))
      ensures r == Err(JournalInvalid) ==> journal == old(journal) && schema == old(schema)
      ensures r != Err(JournalInvalid) ==> IsAt(files) && |old(journal)| <= |journal|
      ensures old(ClockSuits(compare, files, journal, now)) && SublistPresent(b1, files) && r != Err(JournalInvalid) ==> IsAcceptable(files)
      ensures r.Ok? ==>
                && r.value.skipped + r.value.applied == Names(Requested(files, through))
                && |r.value.applied| == |journal| - |old(journal)| && |Requested(files, through)| <= |journal|
                && (r.value.applied == [] ==> journal == old(journal) && schema == old(schema))
      ensures r.Err? && r.error.Failed? ==>
                r.error.at < |files| && r.error.at <= |journal| && StopsCleanly(old(journal), journal, r.error.at, fault(r.error.at))
      ensures r != Err(JournalInvalid) && (forall i :: fault(i) == NoFault) && Replay(exec, base, Requested(files, through)).Some? ==> r.Ok?
      ensures r != Err(JournalInvalid) && |Requested(files, through)| <= |old(journal)| && (forall i :: fault(i) == NoFault) ==>
                r.Ok? && r.value.applied == []
    {
      var valid := ValidateJournal(files, sha, compare, b1, journal);
      if !valid {
        return Err(JournalInvalid);
      }
      FittingJournalNamesLog(files, sha, journal, log);
      var requested := Requested(files, through);
      ghost var good := Replay(exec, base, requested).Some?;
      if good {
        forall n | 0 < n <= |requested|
          ensures AllExecute(exec, base, files, n)
        {
          PrefixExecutes(exec, base, files, |requested|, n);
        }
      }
      r := RunFiles(files, |requested|, Names(requested), fault, now, good);
      if SublistPresent(b1, files) {
        SublistOfPrefix(Names(files), journal, b1);
      }
    }

    method RunFiles(files: seq<File>, count: nat, names: seq<Text>, fault: nat -> Fault, now: nat -> int, ghost good: bool)
      returns (r: Result<RunResult, RunError>)
      requires good ==> forall n | 0 < n <= count :: AllExecute(exec, base, files, n)
      requires IsAt(files) && AscendingFiles(files) && count == |names| <= |files|
      modifies this`schema, this`journal, this`log
      ensures IsAt(files) && |old(journal)| <= |journal|
      ensures old(IsOrdered(compare, journal) && ClockSuits(compare, files, journal, now)) ==> IsOrdered(compare, journal)
      ensures r.Ok? ==>
                && r.value.skipped + r.value.applied == names
                && |r.value.applied| == |journal| - |old(journal)| && count <= |journal|
                && (r.value.applied == [] ==> journal == old(journal) && schema == old(schema))
      ensures r.Err? ==> r.error.Failed? && r.error.at < count && r.error.at <= |journal|
      ensures r.Err? ==> StopsCleanly(old(journal), journal, r.error.at, fault(r.error.at))
      ensures count <= |old(journal)| && (forall i :: fault(i) == NoFault) ==> r.Ok? && r.value.applied == []
      ensures (forall i :: fault(i) == NoFault) && good ==> r.Ok?
    {
      var skipped, applied := [], [];
      ghost var recorded, strict := |journal|, MovesOn(now) && AllStrictlyBefore(journal, now(0));
      ghost var timely := IsOrdered(compare, journal) && ClockSuits(compare, files, journal, now);
      for n := 0 to count
        invariant IsAt(files) && n <= |journal|
        invariant timely ==> CanFollow(compare, files, journal, strict, now(n))
        invariant |journal| == (if n <= recorded then recorded else n)
        invariant n <= recorded ==> journal == old(journal) && schema == old(schema) && applied == [] && skipped == names[..n]
        invariant n > recorded ==> skipped == names[..recorded] && applied == names[recorded..n]
      {
        var turn := HandleFile(files, n, fault(n), now(n), good, strict);
        if turn.Stopped? {
          return Err(Failed(n));
        }
        if timely {
          NextFollows(compare, files, journal, strict, now, n);
        }
        SliceGrows(names, if n < recorded then 0 else recorded, n);
        if turn.Skipped? {
          skipped := skipped + [names[n]];
        } else {
          applied := applied + [names[n]];
        }
      }
      r := Ok(RunResult(applied, skipped));
    }
  }

  /** The first `n` files execute one after the other. */
  ghost predicate AllExecute<S(!new)>(exec: (S, Text) -> Option<S>, base: S, files: seq<File>, n: nat) {
    n <= |files| && Replay(exec, base, files[..n]).Some?
  }

  lemma SliceGrows(names: seq<Text>, from: nat, n: nat)
    requires from <= n < |names|
    ensures names[from..n] + [names[n]] == names[from..n + 1]
  {
  }

  /** If the first `count` files execute in order, then so do the first `n`. */
  lemma {:induction false} PrefixExecutes<S>(exec: (S, Text) -> Option<S>, base: S, files: seq<File>, count: nat, n: nat)
    requires n <= count <= |files| && Replay(exec, base, files[..count]).Some?
    ensures Replay(exec, base, files[..n]).Some?
    decreases count
  {
    if n < count {
      assert files[..count][..count - 1] == files[..count - 1];
      PrefixExecutes(exec, base, files, count - 1, n);
    }
  }

  datatype Turn = Skipped | Applied | Stopped

  ghost predicate Injective(sha: Text -> Text) {
    forall a, b | sha(a) == sha(b) :: a == b
  }

  ghost predicate Advances(now: nat -> int) {
    forall i: nat, j: nat | i < j :: now(i) <= now(j)
  }

  /** The clock moves on from each file to the next. */
  ghost predicate MovesOn(now: nat -> int) {
    forall i: nat, j: nat | i < j :: now(i) < now(j)
  }

  ghost predicate AllBefore(rows: seq<Row>, now: int) {
    forall i | 0 <= i < |rows| :: rows[i].appliedAt <= now
  }

  ghost predicate AllStrictlyBefore(rows: seq<Row>, now: int) {
    forall i | 0 <= i < |rows| :: rows[i].appliedAt < now
  }

  /** `compare` orders the files as they are sorted. */
  ghost predicate NamesAgree(compare: Comparison, files: seq<File>) {
    forall i, j | 0 <= i && j == i + 1 && j < |files| :: compare(files[i].name, files[j].name) <= 0
  }

  /** Nothing applied by this clock can come out of order. */
  ghost predicate ClockSuits(compare: Comparison, files: seq<File>, rows: seq<Row>, now: nat -> int) {
    || (MovesOn(now) && AllStrictlyBefore(rows, now(0)))
    || (Advances(now) && AllBefore(rows, now(0)) && NamesAgree(compare, files))
  }

  ghost predicate IsOrdered(compare: Comparison, rows: seq<Row>) {
    InTimeOrder(rows) && TiesAgree(compare, rows)
  }

  /** The next file, applied at `now`, keeps the journal in order. */
  ghost predicate CanFollow(compare: Comparison, files: seq<File>, rows: seq<Row>, strict: bool, now: int) {
    IsOrdered(compare, rows) && if strict then AllStrictlyBefore(rows, now) else AllBefore(rows, now) && NamesAgree(compare, files)
  }

  lemma NextFollows(compare: Comparison, files: seq<File>, rows: seq<Row>, strict: bool, now: nat -> int, n: nat)
    requires IsOrdered(compare, rows) && AllBefore(rows, now(n))
    requires if strict then MovesOn(now) else Advances(now) && NamesAgree(compare, files)
    ensures CanFollow(compare, files, rows, strict, now(n + 1))
  {
    assert now(n) <= now(n + 1);
  }

  lemma OrderGrows(compare: Comparison, files: seq<File>, sha: Text -> Text, rows: seq<Row>, strict: bool, now: int)
    requires IsPrefix(files, sha, rows) && |rows| < |files| && CanFollow(compare, files, rows, strict, now)
    ensures IsOrdered(compare, rows + [Row(files[|rows|].name, sha(files[|rows|].sql), now)])
    ensures AllBefore(rows + [Row(files[|rows|].name, sha(files[|rows|].sql), now)], now)
  {
    var rows' := rows + [Row(files[|rows|].name, sha(files[|rows|].sql), now)];
    forall i, j | 0 <= i && j == i + 1 && j < |rows'| && rows'[i].appliedAt == rows'[j].appliedAt
      ensures compare(rows'[i].id, rows'[j].id) <= 0
    {
      if j == |rows| {
        assert !strict && compare(files[i].name, files[j].name) <= 0;
      } else {
        assert compare(rows[i].id, rows[j].id) <= 0;
      }
    }
  }

  predicate IsRecorded(rows: seq<Row>, name: Text) {
    exists i | 0 <= i < |rows| :: rows[i].id == name
  }

  lemma RecordedExactly(files: seq<File>, sha: Text -> Text, rows: seq<Row>, n: nat)
    requires AscendingFiles(files) && IsPrefix(files, sha, rows) && n < |files|
    ensures IsRecorded(rows, files[n].name) <==> n < |rows|
  {
    if IsRecorded(rows, files[n].name) {
      var i :| 0 <= i < |rows| && rows[i].id == files[n].name;
      KeyOrderIsTotal(files[i].name, files[n].name);
    }
    if n < |rows| {
      assert rows[n].id == files[n].name;
    }
  }

  lemma JournalGrows(files: seq<File>, sha: Text -> Text, rows: seq<Row>, now: int)
    requires IsPrefix(files, sha, rows) && |rows| < |files|
    ensures IsPrefix(files, sha, rows + [Row(files[|rows|].name, sha(files[|rows|].sql), now)])
  {
  }

  /** With checksums that tell files apart, a journal that fits was written by a prefix of these very files. */
  lemma FittingJournalNamesLog(files: seq<File>, sha: Text -> Text, rows: seq<Row>, log: seq<File>)
    requires Injective(sha) && IsPrefix(files, sha, rows) && |rows| == |log|
    requires forall i | 0 <= i < |log| :: rows[i].id == log[i].name && rows[i].checksum == sha(log[i].sql)
    ensures log == files[..|rows|]
  {
    assert forall i | 0 <= i < |log| :: log[i] == files[i];
  }
}
