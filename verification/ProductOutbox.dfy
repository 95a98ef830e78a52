/**
 The product outbox: its rows, the claim handles issued for them, and the repository's operations.
 Each operation is a transaction; the functions here say what one transaction does to the table,
 and the class methods are proved to do exactly that. OutboxProtocol interleaves them.
 */
module ProductOutbox {
  import opened Utf16
  import opened Wrappers
  import opened KeyOrder
  import opened CanonicalJson
  import opened Envelopes
  import opened EnvelopeCodec
  import opened ErrorCodes

  /** Database time in microseconds. */
  type Time = int

  const MILLISECOND: int := 1000
  const SECOND: int := 1_000_000
  const MAX_ATTEMPTS: nat := 6

  datatype State = Pending | RetryWait | Claimed | Published | TerminalFailed | TerminalUnconfirmed

  datatype Lease = Lease(claimedAt: Time, claimedBy: Text, token: Text, expiresAt: Time)

  datatype Scope = Scope(tenantId: Text, workspaceId: Text, spaceId: Text, relayId: Text, policyId: Text)

  datatype Row = Row(
    columns: Columns,
    relayId: Text,
    policyId: Text,
    state: State,
    attempt: nat,
    nextAttemptAt: Time,
    createdAt: Time,
    lease: Option<Lease>,
    outcome: Option<Text>,
    settledAt: Option<Time>,
    messageId: Option<Text>)

  type Table = map<Text, Row>

  function ScopeOf(row: Row): Scope {
    Scope(row.columns.tenantId, row.columns.workspaceId, row.columns.spaceId, row.relayId, row.policyId)
  }

  predicate IsSettled(row: Row) {
    row.state.Published? || row.state.TerminalFailed? || row.state.TerminalUnconfirmed?
  }

  predicate ValidRow(row: Row) {
    Coherent(row) && (row.state.Claimed? ==> ValidLease(row.lease.value))
  }

  /** State, attempt number, lease and message id fit together. */
  predicate Coherent(row: Row) {
    && row.attempt <= MAX_ATTEMPTS
    && (row.state.Claimed? <==> row.lease.Some?)
    && (row.state.Published? <==> row.messageId.Some?)
    && (row.state.Pending? ==> row.attempt == 0)
    && (row.state.RetryWait? ==> 1 <= row.attempt < MAX_ATTEMPTS)
    && (row.state.Claimed? ==> 1 <= row.attempt)
  }

  /** Lease times are whole milliseconds, so they survive the trip through a handle's ISO strings. */
  predicate ValidLease(lease: Lease) {
    && lease.claimedAt % MILLISECOND == 0 && lease.expiresAt % MILLISECOND == 0
    && lease.claimedAt + 5 * SECOND <= lease.expiresAt
    && IsOwner(lease.claimedBy) && IsClaimToken(lease.token)
  }

  // ----- Input checks -----

  predicate IsOwnerUnit(u: Unit) {
    IsAlnum(u) || u == UNDERSCORE || u == DOT || u == COLON || u == MINUS
  }

  predicate IsOwner(t: Text) {
    1 <= |t| <= 128 && IsAlnum(t[0]) && forall i | 0 <= i < |t| :: IsOwnerUnit(t[i])
  }

  predicate IsClaimToken(t: Text) {
    |t| == 43 && forall i | 0 <= i < 43 :: IsAlnum(t[i]) || t[i] == UNDERSCORE || t[i] == MINUS
  }

  predicate ValidScope(scope: Scope) {
    && IsUuid(scope.tenantId, AnyVersion) && IsUuid(scope.workspaceId, AnyVersion)
    && IsUuid(scope.spaceId, AnyVersion) && IsUuid(scope.relayId, AnyVersion)
    && 1 <= |scope.policyId| <= 200
  }

  datatype ClaimOptions = ClaimOptions(claimedBy: Text, leaseSeconds: int)

  predicate ValidOptions(options: ClaimOptions) {
    IsOwner(options.claimedBy) && 5 <= options.leaseSeconds <= 300
  }

  // ----- Handles -----

  /** What a relay holds after a claim. Its times are ISO strings, that is, whole milliseconds. */
  datatype Handle = Handle(
    eventId: Text,
    scope: Scope,
    envelope: Envelope,
    canonicalEnvelope: Text,
    attempt: nat,
    claimedBy: Text,
    claimToken: Text,
    claimedAtMs: int,
    claimExpiresAtMs: int)

  /** `createClaimHandle`; `None` when the row's columns are not a valid envelope. */
  function CreateClaimHandle(codec: Codec, row: Row): Option<Handle>
    requires row.lease.Some?
  {
    var envelope := codec.read(row.columns);
    if envelope.None? then None else
    var canonical := codec.text(envelope.value);
    if canonical.None? then None else
    var lease := row.lease.value;
    Some(Handle(row.columns.id, ScopeOf(row), envelope.value, canonical.value, row.attempt, lease.claimedBy,
                lease.token, lease.claimedAt / MILLISECOND, lease.expiresAt / MILLISECOND))
  }

  /** `validateHandle` without its test that this repository issued the handle and that the lease is live. */
  predicate ValidHandle(codec: Codec, h: Handle) {
    && IsClaimToken(h.claimToken) && IsOwner(h.claimedBy)
    && 1 <= h.attempt <= MAX_ATTEMPTS
    && codec.text(h.envelope) == Some(h.canonicalEnvelope)
    && h.eventId == h.envelope.eventId
    && h.scope.tenantId == h.envelope.tenantId
    && h.scope.workspaceId == h.envelope.workspaceId
    && h.scope.spaceId == h.envelope.spaceId
    && h.claimedAtMs < h.claimExpiresAtMs
  }

  /** The conditions every statement keyed by a handle shares. */
  predicate Holds(row: Row, h: Handle) {
    && row.columns.id == h.eventId
    && ScopeOf(row) == h.scope
    && row.state.Claimed? && row.lease.Some?
    && row.attempt == h.attempt
    && row.lease.value.claimedBy == h.claimedBy
    && row.lease.value.token == h.claimToken
    && row.lease.value.expiresAt == h.claimExpiresAtMs * MILLISECOND
  }

  /** The lock statement of `publishClaimed`: the claim is the handle's and its lease is live. */
  predicate LockMatches(rows: Table, h: Handle, now: Time) {
    && h.eventId in rows
    && Holds(rows[h.eventId], h)
    && rows[h.eventId].lease.value.expiresAt > now
  }

  // ----- Claiming -----

  predicate SweepDue(row: Row, scope: Scope, now: Time) {
    && ScopeOf(row) == scope
    && row.state.Claimed? && row.attempt == MAX_ATTEMPTS
    && row.lease.Some? && row.lease.value.expiresAt <= now
  }

  /** "relay_interrupted" */
  const RELAY_INTERRUPTED: Text :=
    [0x72, 0x65, 0x6C, 0x61, 0x79, 0x5F, 0x69, 0x6E, 0x74, 0x65, 0x72, 0x72, 0x75, 0x70, 0x74, 0x65, 0x64]

  function SweptRow(row: Row, now: Time): Row {
    row.(state := TerminalUnconfirmed, lease := None, outcome := Some(RELAY_INTERRUPTED), settledAt := Some(now))
  }

  /** The first statement of `claimNext`: last attempts whose lease ran out end unconfirmed. */
  function Sweep(rows: Table, scope: Scope, now: Time): Table {
    map id | id in rows :: if SweepDue(rows[id], scope, now) then SweptRow(rows[id], now) else rows[id]
  }

  predicate Eligible(row: Row, scope: Scope, clock: Time) {
    && ScopeOf(row) == scope
    && row.attempt < MAX_ATTEMPTS
    && (((row.state.Pending? || row.state.RetryWait?) && row.nextAttemptAt <= clock)
        || (row.state.Claimed? && row.lease.Some? && row.lease.value.expiresAt <= clock))
  }

  /** `ORDER BY next_attempt_at, created_at, id` */
  predicate Precedes(a: Row, b: Row) {
    || a.nextAttemptAt < b.nextAttemptAt
    || (a.nextAttemptAt == b.nextAttemptAt
        && (a.createdAt < b.createdAt || (a.createdAt == b.createdAt && KeyLess(a.columns.id, b.columns.id))))
  }

  predicate IsCandidate(rows: Table, locked: set<Text>, scope: Scope, clock: Time, id: Text) {
    id in rows && id !in locked && Eligible(rows[id], scope, clock)
  }

  /** The row the second statement picks: the first eligible one that no other transaction locks. */
  predicate IsNext(rows: Table, locked: set<Text>, scope: Scope, clock: Time, id: Text) {
    && IsCandidate(rows, locked, scope, clock, id)
    && forall other | other in rows && IsCandidate(rows, locked, scope, clock, other) && other != id ::
         Precedes(rows[id], rows[other])
  }

  function ToMilliseconds(t: Time): (r: Time)
    ensures r % MILLISECOND == 0 && r <= t < r + MILLISECOND
  {
    t - t % MILLISECOND
  }

  function ClaimedRow(row: Row, clock: Time, options: ClaimOptions, token: Text): Row {
    row.(state := Claimed, attempt := row.attempt + 1, outcome := None,
         lease := Some(Lease(clock, options.claimedBy, token, clock + options.leaseSeconds * SECOND)))
  }

  /** A claim of row `id`: the new table and the handle; `None` when the handle cannot be built. */
  function Claim(codec: Codec, rows: Table, id: Text, clock: Time, options: ClaimOptions, token: Text): Option<(Table, Handle)>
    requires id in rows
  {
    var row := ClaimedRow(rows[id], clock, options, token);
    var handle := CreateClaimHandle(codec, row);
    if handle.None? then None else Some((rows[id := row], handle.value))
  }

  // ----- Settling -----

  function PublishedRow(row: Row, messageId: Text, now: Time): Row {
    row.(state := Published, lease := None, outcome := None, settledAt := Some(now), messageId := Some(messageId))
  }

  datatype Settlement = Retrying | Failed | Unconfirmed | AlreadySettled

  const RETRY_DELAYS: seq<nat> := [1, 5, 30, 120, 600]

  function RetryRow(row: Row, h: Handle, failure: Failure, now: Time): Row
    requires 1 <= h.attempt <= 5
  {
    row.(state := RetryWait, lease := None, outcome := Some(failure.code),
         nextAttemptAt := now + RETRY_DELAYS[h.attempt - 1] * SECOND)
  }

  function TerminalRow(row: Row, failure: Failure, now: Time): Row {
    row.(state := if failure.kind.Deterministic? then TerminalFailed else TerminalUnconfirmed,
         lease := None, outcome := Some(failure.code), settledAt := Some(now))
  }

  /** The statement of `recordFailure`. It asks for the exact claim, but not for a live lease. */
  function FailureUpdate(rows: Table, h: Handle, failure: Failure, now: Time): (Table, Settlement)
    requires 1 <= h.attempt <= MAX_ATTEMPTS
  {
    if h.eventId !in rows || !Holds(rows[h.eventId], h) then (rows, AlreadySettled)
    else if h.attempt < 6 then
      (rows[h.eventId := RetryRow(rows[h.eventId], h, failure, now)], Retrying)
    else
      (rows[h.eventId := TerminalRow(rows[h.eventId], failure, now)], if failure.kind.Deterministic? then Failed else Unconfirmed)
  }

  /** The columns a failure report leaves alone. */
  predicate KeepsClaimCount(row: Row, row': Row) {
    && row'.columns == row.columns && row'.relayId == row.relayId && row'.policyId == row.policyId
    && row'.createdAt == row.createdAt && row'.attempt == row.attempt && row'.messageId == row.messageId
  }

  /** One second after the first attempt, then five, thirty, two minutes and ten minutes. */
  predicate RetryAfter(attempt: nat, wait: Time) {
    && (attempt == 1 ==> wait == 1 * SECOND)
    && (attempt == 2 ==> wait == 5 * SECOND)
    && (attempt == 3 ==> wait == 30 * SECOND)
    && (attempt == 4 ==> wait == 120 * SECOND)
    && (attempt == 5 ==> wait == 600 * SECOND)
  }

  /** The claim's row waits its turn again below the sixth attempt, and at the sixth it ends, as the failure's kind says. */
  predicate IsFailed(row: Row, row': Row, failure: Failure, now: Time, settlement: Settlement) {
    && KeepsClaimCount(row, row') && row'.lease.None? && row'.outcome == Some(failure.code)
    && (row.attempt < 6 ==>
          && settlement.Retrying? && row'.state.RetryWait? && row'.settledAt == row.settledAt
          && RetryAfter(row.attempt, row'.nextAttemptAt - now))
    && (row.attempt >= 6 ==>
          && row'.settledAt == Some(now) && row'.nextAttemptAt == row.nextAttemptAt
          && (failure.kind.Deterministic? ==> settlement.Failed? && row'.state.TerminalFailed?)
          && (failure.kind.Ambiguous? ==> settlement.Unconfirmed? && row'.state.TerminalUnconfirmed?))
  }

  predicate IsRelays(row: Row, scope: Scope) {
    && row.columns.tenantId == scope.tenantId && row.columns.workspaceId == scope.workspaceId
    && row.columns.spaceId == scope.spaceId && row.relayId == scope.relayId && row.policyId == scope.policyId
  }

  /** The row is under the very claim the handle was issued for. */
  predicate IsHeldBy(row: Row, h: Handle) {
    && row.columns.id == h.eventId && IsRelays(row, h.scope)
    && row.state.Claimed? && row.attempt == h.attempt
    && row.lease.Some? && row.lease.value.claimedBy == h.claimedBy && row.lease.value.token == h.claimToken
    && row.lease.value.expiresAt == h.claimExpiresAtMs * MILLISECOND
  }

  /** The row of a claim that ends in a publication. */
  predicate IsMarked(row: Row, row': Row, messageId: Text, now: Time) {
    && row'.state.Published? && row'.messageId == Some(messageId) && row'.settledAt == Some(now)
    && row'.lease.None? && row'.outcome.None?
    && row'.columns == row.columns && row'.relayId == row.relayId && row'.policyId == row.policyId
    && row'.attempt == row.attempt && row'.nextAttemptAt == row.nextAttemptAt && row'.createdAt == row.createdAt
  }

  /** A report touches the row of its own claim and no other; a claim that is over is left as it is. */
  predicate IsReported(rows: Table, rows': Table, h: Handle, failure: Failure, now: Time, settlement: Settlement) {
    && rows'.Keys == rows.Keys
    && (forall id | id in rows && id != h.eventId :: rows'[id] == rows[id])
    && if h.eventId in rows && IsHeldBy(rows[h.eventId], h) then IsFailed(rows[h.eventId], rows'[h.eventId], failure, now, settlement)
       else rows' == rows && settlement.AlreadySettled?
  }

  lemma FailureIsReported(rows: Table, h: Handle, failure: Failure, now: Time)
    requires 1 <= h.attempt <= MAX_ATTEMPTS
    ensures var (rows', settlement) := FailureUpdate(rows, h, failure, now); IsReported(rows, rows', h, failure, now, settlement)
  {
  }

  /** The lookup after a transaction whose outcome is unknown. */
  predicate IsPublished(rows: Table, h: Handle, messageId: Text) {
    && h.eventId in rows
    && var row := rows[h.eventId];
       && row.columns.id == h.eventId && ScopeOf(row) == h.scope
       && row.attempt == h.attempt && row.state.Published? && row.messageId == Some(messageId)
  }

  // ----- Inserting -----

  function NewRow(columns: Columns, relayId: Text, policyId: Text, now: Time): Row {
    Row(columns, relayId, policyId, Pending, 0, now, now, None, None, None, None)
  }

  datatype InsertResult = Inserted(eventId: Text) | Replayed(eventId: Text) | InvariantBroken | NotAnEnvelope

  /** The row a conflicting insert meets. */
  ghost function Existing(rows: Table, key: SemanticKey): (found: Option<Text>)
    ensures found.Some? ==> found.value in rows && KeyOfColumns(rows[found.value].columns) == key
    ensures found.None? ==> forall id | id in rows :: KeyOfColumns(rows[id].columns) != key
  {
    if exists id :: id in rows && KeyOfColumns(rows[id].columns) == key then
      var id :| id in rows && KeyOfColumns(rows[id].columns) == key; Some(id)
    else None
  }

  /** The canonical text of the envelope a row's columns read as. */
  function RowText(codec: Codec, row: Row): Option<Text> {
    var envelope := codec.read(row.columns);
    if envelope.None? then None else codec.text(envelope.value)
  }

  /** The replay test: same relay, same policy, same canonical text. */
  predicate ReplayMatches(codec: Codec, row: Row, e: Envelope, relayId: Text, policyId: Text) {
    row.relayId == relayId && row.policyId == policyId && codec.text(e).Some? && RowText(codec, row) == codec.text(e)
  }

  /** `insertOrReplay`; `stored` is what the jsonb column makes of the payload's canonical text. */
  ghost function InsertOrReplay(codec: Codec, rows: Table, raw: RawEnvelope, relayId: Text, policyId: Text, stored: Json, now: Time): (Table, InsertResult)
  {
    var parsed := codec.parse(raw);
    if parsed.None? then (rows, NotAnEnvelope) else
    var e := parsed.value;
    var found := Existing(rows, codec.key(e));
    if found.Some? then
      (rows, if ReplayMatches(codec, rows[found.value], e, relayId, policyId) then Replayed(found.value) else InvariantBroken)
    else if e.eventId in rows then (rows, InvariantBroken)
    else (rows[e.eventId := NewRow(codec.write(e, stored), relayId, policyId, now)], Inserted(e.eventId))
  }

  // ----- Facts about single transactions -----

  /** A claim of a stored row never fails to build its handle, and the handle carries the stored envelope. */
  lemma StoredRowsGetHandles(codec: Codec, row: Row, e: Envelope)
    requires Carries(codec, row.columns, e)
    requires row.lease.Some? && ValidLease(row.lease.value) && row.state.Claimed? && 1 <= row.attempt <= MAX_ATTEMPTS
    ensures CreateClaimHandle(codec, row).Some?
    ensures var h := CreateClaimHandle(codec, row).value;
            && h.envelope == e && ValidHandle(codec, h) && RowMatches(codec, row, h)
            && h.attempt == row.attempt && h.eventId == row.columns.id
  {
    var lease := row.lease.value;
    assert lease.expiresAt == lease.expiresAt / MILLISECOND * MILLISECOND;
    assert lease.claimedAt == lease.claimedAt / MILLISECOND * MILLISECOND;
  }

  /** The replay test compares whole envelopes: it passes exactly for the envelope stored. */
  lemma ReplayMatchesExactly(codec: Codec, row: Row, stored: Envelope, e: Envelope, relayId: Text, policyId: Text)
    requires Lawful(codec) && Carries(codec, row.columns, stored)
    requires IsParsed(codec, e) && codec.text(e).Some?
    ensures ReplayMatches(codec, row, e, relayId, policyId) <==>
              stored == e && row.relayId == relayId && row.policyId == policyId
  {
  }

  /** Some candidate comes first: `ORDER BY … LIMIT 1` finds a row whenever there is one. */
  lemma {:induction false} NextExists(rows: Table, locked: set<Text>, scope: Scope, clock: Time, among: set<Text>) returns (id: Text)
    requires forall other | other in rows :: rows[other].columns.id == other
    requires among != {} && forall other | other in among :: IsCandidate(rows, locked, scope, clock, other)
    ensures id in among && id in rows && forall other | other in among && other in rows && other != id :: Precedes(rows[id], rows[other])
    decreases among
  {
    var one :| one in among;
    var others := among - {one};
    assert among == others + {one};
    if others == {} {
      id := one;
    } else {
      var first := NextExists(rows, locked, scope, clock, others);
      KeyOrderIsTotal(one, first);
      id := if Precedes(rows[first], rows[one]) then first else one;
      if id == one {
        assert Precedes(rows[one], rows[first]);
        forall other | other in others && other in rows && other != first
          ensures Precedes(rows[one], rows[other])
        {
          PrecedesIsTransitive(rows[one], rows[first], rows[other]);
        }
      }
    }
  }

  lemma PrecedesIsTransitive(a: Row, b: Row, c: Row)
    requires Precedes(a, b) && Precedes(b, c)
    ensures Precedes(a, c)
  {
    if KeyLess(a.columns.id, b.columns.id) && KeyLess(b.columns.id, c.columns.id) {
      KeyOrderIsTransitive(a.columns.id, b.columns.id, c.columns.id);
    }
  }

  ghost predicate ValidTable(rows: Table) {
    forall id | id in rows :: rows[id].columns.id == id && ValidRow(rows[id])
  }

  ghost predicate DistinctSemanticKeys(rows: Table) {
    forall i, j | i in rows && j in rows && KeyOfColumns(rows[i].columns) == KeyOfColumns(rows[j].columns) :: i == j
  }

  /** Every row's columns hold an envelope, and no two rows share a semantic key. */
  ghost predicate AllReadable(codec: Codec, rows: Table) {
    DistinctSemanticKeys(rows) && forall id | id in rows :: exists e :: Carries(codec, rows[id].columns, e)
  }

  lemma SweepKeepsTable(codec: Codec, rows: Table, scope: Scope, now: Time)
    requires ValidTable(rows) && AllReadable(codec, rows)
    ensures ValidTable(Sweep(rows, scope, now)) && AllReadable(codec, Sweep(rows, scope, now))
  {
    var swept := Sweep(rows, scope, now);
    assert forall id | id in rows :: swept[id].columns == rows[id].columns;
  }

  lemma WritesCarry(codec: Codec, raw: RawEnvelope, stored: Json)
    requires Lawful(codec) && codec.parse(raw).Some? && IsStoredForm(codec.parse(raw).value, stored)
    ensures Carries(codec, codec.write(codec.parse(raw).value, stored), codec.parse(raw).value)
  {
  }

  lemma FailureKeepsTable(codec: Codec, rows: Table, h: Handle, failure: Failure, now: Time)
    requires ValidTable(rows) && AllReadable(codec, rows) && 1 <= h.attempt <= MAX_ATTEMPTS
    ensures var rows' := FailureUpdate(rows, h, failure, now).0; ValidTable(rows') && AllReadable(codec, rows')
  {
    if h.eventId in rows && Holds(rows[h.eventId], h) {
      var row := rows[h.eventId];
      ReplacingRow(codec, rows, h.eventId,
                   if h.attempt < 6 then RetryRow(row, h, failure, now) else TerminalRow(row, failure, now));
    }
  }

  lemma NoConflict(rows: Table, key: SemanticKey, conflicting: set<Text>)
    requires conflicting == (set id | id in rows && KeyOfColumns(rows[id].columns) == key) && conflicting == {}
    ensures Existing(rows, key).None?
  {
    forall id | id in rows
      ensures KeyOfColumns(rows[id].columns) != key
    {
      assert id !in conflicting;
    }
  }

  lemma ReplacingRow(codec: Codec, rows: Table, id: Text, row: Row)
    requires ValidTable(rows) && AllReadable(codec, rows)
    requires id in rows && row.columns == rows[id].columns && ValidRow(row)
    ensures ValidTable(rows[id := row]) && AllReadable(codec, rows[id := row])
  {
    var changed := rows[id := row];
    assert forall other | other in rows :: changed[other].columns == rows[other].columns;
  }

  lemma ClaimedRowIsValid(row: Row, clock: Time, options: ClaimOptions, token: Text)
    requires Coherent(row) && row.attempt < MAX_ATTEMPTS && !row.state.Published?
    requires clock % MILLISECOND == 0 && ValidOptions(options) && IsClaimToken(token)
    ensures ValidRow(ClaimedRow(row, clock, options, token))
  {
    assert (clock + options.leaseSeconds * SECOND) % MILLISECOND == 0;
  }

  /** A claim of an eligible row that carries an envelope succeeds and issues the matching handle. */
  lemma ClaimSucceeds(codec: Codec, rows: Table, id: Text, e: Envelope, scope: Scope, clock: Time, options: ClaimOptions, token: Text)
    requires id in rows && rows[id].columns.id == id && Coherent(rows[id]) && Carries(codec, rows[id].columns, e)
    requires Eligible(rows[id], scope, clock)
    requires clock % MILLISECOND == 0 && ValidOptions(options) && IsClaimToken(token)
    ensures Claim(codec, rows, id, clock, options, token).Some?
    ensures var (rows', h) := Claim(codec, rows, id, clock, options, token).value;
            var row := ClaimedRow(rows[id], clock, options, token);
            && rows' == rows[id := row] && ValidRow(row) && h.envelope == e
            && h.eventId == id && h.attempt == row.attempt && RowMatches(codec, row, h) && ValidHandle(codec, h)
  {
    ClaimedRowIsValid(rows[id], clock, options, token);
    StoredRowsGetHandles(codec, ClaimedRow(rows[id], clock, options, token), e);
  }

  lemma ClaimKeepsTable(codec: Codec, rows: Table, id: Text, scope: Scope, clock: Time, options: ClaimOptions, token: Text)
    requires ValidTable(rows) && AllReadable(codec, rows) && id in rows && Eligible(rows[id], scope, clock)
    requires clock % MILLISECOND == 0 && ValidOptions(options) && IsClaimToken(token)
    ensures Claim(codec, rows, id, clock, options, token).Some?
    ensures var (rows', h) := Claim(codec, rows, id, clock, options, token).value;
            && ValidTable(rows') && AllReadable(codec, rows') && ValidHandle(codec, h)
            && h.eventId == id && id in rows' && Holds(rows'[id], h)
  {
    var e :| Carries(codec, rows[id].columns, e);
    ClaimSucceeds(codec, rows, id, e, scope, clock, options, token);
    ReplacingRow(codec, rows, id, ClaimedRow(rows[id], clock, options, token));
  }

  /** `ORDER BY … LIMIT 1 FOR UPDATE SKIP LOCKED` */
  method ChooseNext(rows: Table, locked: set<Text>, scope: Scope, clock: Time) returns (next: Option<Text>)
    requires forall id | id in rows :: rows[id].columns.id == id
    ensures next.None? <==> forall id | id in rows :: !IsCandidate(rows, locked, scope, clock, id)
    ensures next.Some? ==> IsNext(rows, locked, scope, clock, next.value)
  {
    var candidates := set id | id in rows && IsCandidate(rows, locked, scope, clock, id);
    if candidates == {} {
      forall id | id in rows
        ensures !IsCandidate(rows, locked, scope, clock, id)
      {
        assert id !in candidates;
      }
      return None;
    }
    ghost var _ := NextExists(rows, locked, scope, clock, candidates);
    var id :| id in candidates && forall other | other in candidates && other in rows && other != id :: Precedes(rows[id], rows[other]);
    next := Some(id);
  }

  // ----- What a claim transaction does, column by column -----

  /** Waiting with its time come, or claimed with its lease run out; and not yet tried six times. */
  predicate IsDue(row: Row, scope: Scope, clock: Time) {
    && IsRelays(row, scope) && row.attempt <= 5
    && match row.state {
         case Pending => row.nextAttemptAt <= clock
         case RetryWait => row.nextAttemptAt <= clock
         case Claimed => row.lease.Some? && row.lease.value.expiresAt <= clock
         case _ => false
       }
  }

  /** The row is claimed once more, from `clock` on for the seconds asked. */
  predicate IsTaken(row: Row, row': Row, options: ClaimOptions, token: Text, clock: Time) {
    && row'.state.Claimed? && row'.attempt == row.attempt + 1 && row'.outcome.None?
    && row'.lease.Some?
    && row'.lease.value.claimedAt == clock && row'.lease.value.expiresAt - clock == options.leaseSeconds * SECOND
    && row'.lease.value.claimedBy == options.claimedBy && row'.lease.value.token == token
    && row'.columns == row.columns && row'.relayId == row.relayId && row'.policyId == row.policyId
    && row'.nextAttemptAt == row.nextAttemptAt && row'.createdAt == row.createdAt
    && row'.settledAt == row.settledAt && row'.messageId == row.messageId
  }

  /** The sixth claim has run out with nothing heard of it. */
  predicate IsInterrupted(row: Row, scope: Scope, now: Time) {
    IsRelays(row, scope) && row.attempt == 6 && row.state.Claimed? && row.lease.Some? && row.lease.value.expiresAt <= now
  }

  predicate IsGivenUp(row: Row, row': Row, now: Time) {
    && row'.state.TerminalUnconfirmed? && row'.lease.None? && row'.outcome == Some(RELAY_INTERRUPTED) && row'.settledAt == Some(now)
    && KeepsClaimCount(row, row') && row'.nextAttemptAt == row.nextAttemptAt
  }

  /** Due earlier; or due together and inserted earlier; or both together and smaller in its id. */
  ghost predicate QueuesBefore(row: Row, other: Row) {
    && row.nextAttemptAt <= other.nextAttemptAt
    && (row.nextAttemptAt == other.nextAttemptAt ==>
          && row.createdAt <= other.createdAt
          && (row.createdAt == other.createdAt ==> ComesBefore(row.columns.id, other.columns.id)))
  }

  /**
   A claim transaction gives up the interrupted rows, takes the first due row that nobody locks, if
   there is one, and leaves every other row as it is.
   */
  ghost predicate IsClaimRound(rows: Table, rows': Table, locked: set<Text>, scope: Scope, options: ClaimOptions, token: Text,
                               sweepAt: Time, clock: Time, taken: Option<Text>)
  {
    && rows'.Keys == rows.Keys
    && (taken.Some? ==>
          && taken.value in rows && taken.value !in locked
          && IsDue(rows[taken.value], scope, clock) && IsTaken(rows[taken.value], rows'[taken.value], options, token, clock))
    && (forall id | id in rows && id !in locked && taken != Some(id) && IsDue(rows[id], scope, clock) ::
          taken.Some? && QueuesBefore(rows[taken.value], rows[id]))
    && (forall id | id in rows && taken != Some(id) ::
          if IsInterrupted(rows[id], scope, sweepAt) then IsGivenUp(rows[id], rows'[id], sweepAt) else rows'[id] == rows[id])
  }

  /** A row no claim transaction at this time may touch: settled, another relay's, not yet due, or under a live lease. */
  predicate IsOffLimits(row: Row, scope: Scope, clock: Time) {
    || row.state.Published? || row.state.TerminalFailed? || row.state.TerminalUnconfirmed?
    || row.columns.tenantId != scope.tenantId || row.columns.workspaceId != scope.workspaceId
    || row.columns.spaceId != scope.spaceId || row.relayId != scope.relayId || row.policyId != scope.policyId
    || ((row.state.Pending? || row.state.RetryWait?) && row.nextAttemptAt > clock)
    || (row.state.Claimed? && row.lease.Some? && row.lease.value.expiresAt > clock)
  }

  ghost predicate LeavesOffLimits(rows: Table, rows': Table, scope: Scope, clock: Time) {
    forall id | id in rows && IsOffLimits(rows[id], scope, clock) :: id in rows' && rows'[id] == rows[id]
  }

  /** The two statements of `claimNext`: the sweep, then the claim of the next row if there is one. */
  ghost predicate SweepsAndTakes(codec: Codec, rows: Table, rows': Table, locked: set<Text>, scope: Scope, options: ClaimOptions, token: Text,
                                 sweepAt: Time, clock: Time, claim: Option<Handle>)
  {
    var swept := Sweep(rows, scope, sweepAt);
    match claim
    case None => rows' == swept && forall id | id in swept :: !IsCandidate(swept, locked, scope, clock, id)
    case Some(h) => IsNext(swept, locked, scope, clock, h.eventId) && Claim(codec, swept, h.eventId, clock, options, token) == Some((rows', h))
  }

  function IdOf(claim: Option<Handle>): Option<Text> {
    if claim.None? then None else Some(claim.value.eventId)
  }

  lemma SweepSparesDue(rows: Table, scope: Scope, sweepAt: Time, clock: Time, id: Text)
    requires id in rows && Coherent(rows[id])
    ensures var row := Sweep(rows, scope, sweepAt)[id];
            && (Eligible(row, scope, clock) ==> row == rows[id])
            && (IsDue(rows[id], scope, clock) <==> Eligible(row, scope, clock))
            && if IsInterrupted(rows[id], scope, sweepAt) then IsGivenUp(rows[id], row, sweepAt) else row == rows[id]
  {
  }

  lemma ClaimTakes(codec: Codec, rows: Table, id: Text, clock: Time, options: ClaimOptions, token: Text)
    requires id in rows && Claim(codec, rows, id, clock, options, token).Some?
    ensures var (rows', h) := Claim(codec, rows, id, clock, options, token).value;
            && rows'.Keys == rows.Keys && IsTaken(rows[id], rows'[id], options, token, clock)
            && forall other | other in rows && other != id :: rows'[other] == rows[other]
  {
  }

  lemma ClaimIsRound(codec: Codec, rows: Table, rows': Table, locked: set<Text>, scope: Scope, options: ClaimOptions, token: Text,
                     sweepAt: Time, clock: Time, claim: Option<Handle>)
    requires forall id | id in rows :: rows[id].columns.id == id && Coherent(rows[id])
    requires SweepsAndTakes(codec, rows, rows', locked, scope, options, token, sweepAt, clock, claim)
    ensures IsClaimRound(rows, rows', locked, scope, options, token, sweepAt, clock, IdOf(claim))
  {
    var swept, taken := Sweep(rows, scope, sweepAt), IdOf(claim);
    forall id | id in rows
      ensures IsDue(rows[id], scope, clock) <==> Eligible(swept[id], scope, clock)
      ensures Eligible(swept[id], scope, clock) ==> swept[id] == rows[id]
      ensures if IsInterrupted(rows[id], scope, sweepAt) then IsGivenUp(rows[id], swept[id], sweepAt) else swept[id] == rows[id]
    {
      SweepSparesDue(rows, scope, sweepAt, clock, id);
    }
    if claim.Some? {
      ClaimTakes(codec, swept, claim.value.eventId, clock, options, token);
    }
    forall id | id in rows && id !in locked && taken != Some(id) && IsDue(rows[id], scope, clock)
      ensures taken.Some? && QueuesBefore(rows[taken.value], rows[id])
    {
      assert IsCandidate(swept, locked, scope, clock, id);
      if taken.Some? {
        KeyLessMeaning(taken.value, id);
      }
    }
  }

  lemma RoundLeavesOffLimits(rows: Table, rows': Table, locked: set<Text>, scope: Scope, options: ClaimOptions, token: Text,
                             sweepAt: Time, claimAt: Time, taken: Option<Text>)
    requires ValidTable(rows) && sweepAt <= claimAt
    requires IsClaimRound(rows, rows', locked, scope, options, token, sweepAt, ToMilliseconds(claimAt), taken)
    ensures LeavesOffLimits(rows, rows', scope, ToMilliseconds(claimAt))
  {
  }

  /** A row waiting for its first claim, due at once. */
  predicate IsNewRow(row: Row, relayId: Text, policyId: Text, now: Time) {
    && row.state.Pending? && row.attempt == 0 && row.nextAttemptAt == now && row.createdAt == now
    && row.relayId == relayId && row.policyId == policyId
    && row.lease.None? && row.outcome.None? && row.settledAt.None? && row.messageId.None?
  }

  /** Row `id` holds this very envelope, for this relay and policy. */
  ghost predicate IsStoredAs(codec: Codec, rows: Table, id: Text, e: Envelope, relayId: Text, policyId: Text) {
    id in rows && Carries(codec, rows[id].columns, e) && rows[id].relayId == relayId && rows[id].policyId == policyId
  }

  /**
   What an insert does: a new pending row that carries the envelope, unless a row with its semantic
   key or its id is there already; a replay exactly of the row that holds this very envelope for
   this relay and policy; and otherwise nothing.
   */
  ghost predicate IsInsertion(codec: Codec, rows: Table, rows': Table, raw: RawEnvelope, relayId: Text, policyId: Text, now: Time, r: InsertResult) {
    && (!r.Inserted? ==> rows' == rows)
    && (r.NotAnEnvelope? <==> codec.parse(raw).None?)
    && (codec.parse(raw).Some? ==>
          var e := codec.parse(raw).value;
          && (r.Inserted? <==> e.eventId !in rows && forall id | id in rows :: KeyOfColumns(rows[id].columns) != codec.key(e))
          && (r.Inserted? ==> r.eventId == e.eventId && IsAdded(codec, rows, rows', e, relayId, policyId, now))
          && forall id :: r == Replayed(id) <==> IsStoredAs(codec, rows, id, e, relayId, policyId))
  }

  ghost predicate IsAdded(codec: Codec, rows: Table, rows': Table, e: Envelope, relayId: Text, policyId: Text, now: Time) {
    && e.eventId in rows' && rows' == rows[e.eventId := rows'[e.eventId]]
    && Carries(codec, rows'[e.eventId].columns, e) && IsNewRow(rows'[e.eventId], relayId, policyId, now)
  }

  lemma InsertOrReplayInserts(codec: Codec, rows: Table, raw: RawEnvelope, relayId: Text, policyId: Text, stored: Json, now: Time)
    requires Lawful(codec) && AllReadable(codec, rows)
    requires codec.parse(raw).Some? ==> IsStoredForm(codec.parse(raw).value, stored)
    ensures var (rows', r) := InsertOrReplay(codec, rows, raw, relayId, policyId, stored, now);
            IsInsertion(codec, rows, rows', raw, relayId, policyId, now, r)
  {
    if codec.parse(raw).Some? {
      var e := codec.parse(raw).value;
      ParsedIsPrinted(codec, raw, stored);
      WritesCarry(codec, raw, stored);
      var found := Existing(rows, codec.key(e));
      if found.Some? {
        ReplayFindsStored(codec, rows, found.value, e, relayId, policyId);
      }
    }
  }

  lemma NewRowKeepsTable(codec: Codec, rows: Table, raw: RawEnvelope, relayId: Text, policyId: Text, stored: Json, now: Time)
    requires Lawful(codec) && ValidTable(rows) && AllReadable(codec, rows)
    requires codec.parse(raw).Some? && IsStoredForm(codec.parse(raw).value, stored)
    requires var e := codec.parse(raw).value; forall id | id in rows :: KeyOfColumns(rows[id].columns) != codec.key(e)
    ensures var e := codec.parse(raw).value;
            var rows' := rows[e.eventId := NewRow(codec.write(e, stored), relayId, policyId, now)];
            ValidTable(rows') && AllReadable(codec, rows')
  {
    WritesCarry(codec, raw, stored);
  }

  lemma ParsedIsPrinted(codec: Codec, raw: RawEnvelope, stored: Json)
    requires Lawful(codec) && codec.parse(raw).Some? && IsStoredForm(codec.parse(raw).value, stored)
    ensures IsParsed(codec, codec.parse(raw).value) && codec.text(codec.parse(raw).value).Some?
  {
    WritesCarry(codec, raw, stored);
  }

  /** The replay test on the row with the envelope's semantic key decides whether the envelope is stored anywhere. */
  lemma ReplayFindsStored(codec: Codec, rows: Table, found: Text, e: Envelope, relayId: Text, policyId: Text)
    requires Lawful(codec) && AllReadable(codec, rows) && IsParsed(codec, e) && codec.text(e).Some?
    requires found in rows && KeyOfColumns(rows[found].columns) == codec.key(e)
    ensures ReplayMatches(codec, rows[found], e, relayId, policyId) <==> IsStoredAs(codec, rows, found, e, relayId, policyId)
    ensures forall id | IsStoredAs(codec, rows, id, e, relayId, policyId) :: id == found
  {
    var stored :| Carries(codec, rows[found].columns, stored);
    ReplayMatchesExactly(codec, rows[found], stored, e, relayId, policyId);
  }

  // ----- The repository -----

  datatype RelayError =
    | ClaimRejected
    | NotAuthorized
    | Other(name: Option<Text>)
    | PublicationUnresolved
    | PublicationFailed(failure: Failure)

  datatype PublishResult = Sent(eventId: Text, messageId: Text) | Unresolved(eventId: Text, messageId: Text)

  /** How the publisher answers, and how the transaction ends. */
  datatype Reply = Acknowledged(messageId: Text) | Refused(error: RelayError)

  datatype CommitOutcome = Commits | CommitsUnheard | RollsBack(error: RelayError)

  /** Everything outside one `publishClaimed` call that its course depends on. */
  datatype Environment = Environment(
    appNowMs: int,
    lockAt: Time,
    allowed: bool,
    reply: Reply,
    markAt: Time,
    commit: CommitOutcome,
    lookupAnswers: bool)

  const DELIVERY_NAME_MISSING: Option<Text> := Some(Ascii("MissingMessageId"))

  const INVALID_ENVELOPE: RelayError := Other(Some(Ascii("DomainNotificationValidationError")))

  predicate IsMessageId(t: Text) {
    IsBounded(t, 200)
  }

  /** The lock is taken and the row matches the handle. */
  predicate Admitted(codec: Codec, rows: Table, h: Handle, env: Environment) {
    && h.claimExpiresAtMs > env.appNowMs
    && LockMatches(rows, h, env.lockAt)
    && RowMatches(codec, rows[h.eventId], h)
  }

  /** The publisher is called: the claim is admitted and authority is current. */
  predicate Reaches(codec: Codec, rows: Table, h: Handle, env: Environment) {
    Admitted(codec, rows, h, env) && env.allowed
  }

  /** `rowMatchesHandle` on a locked row. */
  predicate RowMatches(codec: Codec, row: Row, h: Handle) {
    && Holds(row, h)
    && row.lease.value.claimedAt / MILLISECOND == h.claimedAtMs
    && RowText(codec, row) == Some(h.canonicalEnvelope)
  }

  /** How an admitted call fails before it has a message id. */
  function PublishError(env: Environment): RelayError {
    if !env.allowed then NotAuthorized
    else if env.reply.Refused? then env.reply.error
    else Other(DELIVERY_NAME_MISSING)
  }

  /** The call has a valid message id in hand. */
  predicate Acknowledges(codec: Codec, rows: Table, h: Handle, env: Environment) {
    Reaches(codec, rows, h, env) && env.reply.Acknowledged? && IsMessageId(env.reply.messageId)
  }

  /** The publication mark becomes durable. */
  predicate TakesEffect(codec: Codec, rows: Table, h: Handle, env: Environment) {
    && Acknowledges(codec, rows, h, env)
    && rows[h.eventId].lease.value.expiresAt > env.markAt
    && !env.commit.RollsBack?
  }

  class ProductOutboxRepository {
    const codec: Codec
    var rows: Table
    var handles: set<Handle>

    ghost predicate Valid()
      reads this
    {
      && Lawful(codec)
      && ValidTable(rows)
      && AllReadable(codec, rows)
      && (forall h | h in handles :: ValidHandle(codec, h))
    }

    constructor (codec: Codec)
      requires Lawful(codec)
      ensures Valid() && this.codec == codec && rows == map[] && handles == {}
    {
      this.codec := codec;
      rows := map[];
      handles := {};
    }

    /** `locked` are the rows other open transactions hold; the second statement skips them. */
    method ClaimNext(scope: Scope, options: ClaimOptions, token: Text, sweepAt: Time, claimAt: Time, locked: set<Text>)
      returns (r: Result<Option<Handle>, RelayError>)
      requires Valid() && IsClaimToken(token)
      modifies this`rows, this`handles
      ensures Valid()
      ensures !(ValidScope(scope) && ValidOptions(options)) ==>
                r == Err(ClaimRejected) && rows == old(rows) && handles == old(handles)
      ensures ValidScope(scope) && ValidOptions(options) ==>
                && r.Ok?
                && SweepsAndTakes(codec, old(rows), rows, locked, scope, options, token, sweepAt, ToMilliseconds(claimAt), r.value)
                && handles == old(handles) + if r.value.None? then {} else {r.value.value}
      ensures r.Ok? ==>
                IsClaimRound(old(rows), rows, locked, scope, options, token, sweepAt, ToMilliseconds(claimAt), IdOf(r.value))
      ensures r.Ok? && sweepAt <= claimAt ==> LeavesOffLimits(old(rows), rows, scope, ToMilliseconds(claimAt))
      ensures r.Ok? && r.value.Some? ==> r.value.value.eventId in rows && Holds(rows[r.value.value.eventId], r.value.value)
    {
      if !ValidScope(scope) || !ValidOptions(options) {
        return Err(ClaimRejected);
      }
      ghost var before := rows;
      var claim := SweepAndTake(scope, options, token, sweepAt, claimAt, locked);
      ClaimIsRound(codec, before, rows, locked, scope, options, token, sweepAt, ToMilliseconds(claimAt), claim);
      if sweepAt <= claimAt {
        RoundLeavesOffLimits(before, rows, locked, scope, options, token, sweepAt, claimAt, IdOf(claim));
      }
      r := Ok(claim);
    }

    /** The two statements of the transaction. */
    method SweepAndTake(scope: Scope, options: ClaimOptions, token: Text, sweepAt: Time, claimAt: Time, locked: set<Text>)
      returns (claim: Option<Handle>)
      requires Valid() && ValidOptions(options) && IsClaimToken(token)
      modifies this`rows, this`handles
      ensures Valid()
      ensures SweepsAndTakes(codec, old(rows), rows, locked, scope, options, token, sweepAt, ToMilliseconds(claimAt), claim)
      ensures handles == old(handles) + if claim.None? then {} else {claim.value}
      ensures claim.Some? ==> claim.value.eventId in rows && Holds(rows[claim.value.eventId], claim.value)
    {
      SweepKeepsTable(codec, rows, scope, sweepAt);
      rows := Sweep(rows, scope, sweepAt);
      var clock := ToMilliseconds(claimAt);
      var next := ChooseNext(rows, locked, scope, clock);
      if next.None? {
        return None;
      }
      ClaimKeepsTable(codec, rows, next.value, scope, clock, options, token);
      var taken := Claim(codec, rows, next.value, clock, options, token);
      rows := taken.value.0;
      handles := handles + {taken.value.1};
      claim := Some(taken.value.1);
    }

    method PublishClaimed(h: Handle, env: Environment) returns (r: Result<PublishResult, RelayError>)
      requires Valid()
      modifies this`rows
      ensures Valid()
      ensures h !in handles ==> r == Err(ClaimRejected)
      ensures h !in handles || !TakesEffect(codec, old(rows), h, env) ==> rows == old(rows)
      ensures h in handles && TakesEffect(codec, old(rows), h, env) ==>
                && rows == old(rows)[h.eventId := PublishedRow(old(rows)[h.eventId], env.reply.messageId, env.markAt)]
                && IsMarked(old(rows)[h.eventId], rows[h.eventId], env.reply.messageId, env.markAt)
      ensures h in handles && Acknowledges(codec, old(rows), h, env) <==> r.Ok?
      ensures r != Err(ClaimRejected) ==>
                && h in handles && h.eventId in old(rows) && IsHeldBy(old(rows)[h.eventId], h)
                && old(rows)[h.eventId].lease.value.expiresAt > env.lockAt && h.claimExpiresAtMs > env.appNowMs
      ensures r.Ok? ==> r.value.eventId == h.eventId && env.reply == Acknowledged(r.value.messageId) && env.allowed
      ensures r.Ok? && r.value.Sent? ==>
                && IsPublished(rows, h, r.value.messageId)
                && rows[h.eventId].state.Published? && rows[h.eventId].messageId == Some(r.value.messageId)
                && rows[h.eventId].attempt == h.attempt && IsRelays(rows[h.eventId], h.scope)
      ensures r.Ok? && r.value.Unresolved? && IsPublished(rows, h, r.value.messageId) ==>
                env.commit.CommitsUnheard? && !env.lookupAnswers
      ensures r.Err? && h in handles ==>
                r.error == if !Admitted(codec, old(rows), h, env) then ClaimRejected else PublishError(env)
    {
      if h !in handles || h.claimExpiresAtMs <= env.appNowMs || !LockMatches(rows, h, env.lockAt) {
        return Err(ClaimRejected);
      }
      var row := rows[h.eventId];
      assert exists e :: Carries(codec, row.columns, e);
      if RowText(codec, row).None? {
        return Err(INVALID_ENVELOPE);
      }
      if !RowMatches(codec, row, h) {
        return Err(ClaimRejected);
      }
      if !env.allowed {
        return Err(NotAuthorized);
      }
      if env.reply.Refused? {
        return Err(env.reply.error);
      }
      var acknowledged := env.reply.messageId;
      if !IsMessageId(acknowledged) {
        return Err(Other(DELIVERY_NAME_MISSING));
      }
      if row.lease.value.expiresAt > env.markAt && !env.commit.RollsBack? {
        rows := rows[h.eventId := PublishedRow(row, acknowledged, env.markAt)];
        if env.commit.Commits? {
          return Ok(Sent(h.eventId, acknowledged));
        }
      }
      if env.lookupAnswers && IsPublished(rows, h, acknowledged) {
        return Ok(Sent(h.eventId, acknowledged));
      }
      r := Ok(Unresolved(h.eventId, acknowledged));
    }

    method RecordFailure(h: Handle, failure: Failure, now: Time) returns (r: Result<Settlement, RelayError>)
      requires Valid()
      modifies this`rows
      ensures Valid()
      ensures r.Ok? <==> h in handles && IsSafeCode(failure.code)
      ensures r.Err? ==> r.error.ClaimRejected? && rows == old(rows)
      ensures r.Ok? ==> (rows, r.value) == FailureUpdate(old(rows), h, failure, now)
      ensures r.Ok? ==> IsReported(old(rows), rows, h, failure, now, r.value)
    {
      if h !in handles || !IsSafeCode(failure.code) {
        return Err(ClaimRejected);
      }
      FailureIsReported(rows, h, failure, now);
      FailureKeepsTable(codec, rows, h, failure, now);
      var update := FailureUpdate(rows, h, failure, now);
      rows := update.0;
      r := Ok(update.1);
    }

    method Insert(raw: RawEnvelope, relayId: Text, policyId: Text, stored: Json, now: Time) returns (r: InsertResult)
      requires Valid()
      requires codec.parse(raw).Some? ==> IsStoredForm(codec.parse(raw).value, stored)
      modifies this`rows
      ensures Valid()
      ensures (rows, r) == InsertOrReplay(codec, old(rows), raw, relayId, policyId, stored, now)
      ensures IsInsertion(codec, old(rows), rows, raw, relayId, policyId, now, r)
    {
      InsertOrReplayInserts(codec, rows, raw, relayId, policyId, stored, now);
      var parsed := codec.parse(raw);
      if parsed.None? {
        return NotAnEnvelope;
      }
      var e := parsed.value;
      var conflicting := set id | id in rows && KeyOfColumns(rows[id].columns) == codec.key(e);
      if conflicting != {} {
        var id :| id in conflicting;
        return if ReplayMatches(codec, rows[id], e, relayId, policyId) then Replayed(id) else InvariantBroken;
      }
      NoConflict(rows, codec.key(e), conflicting);
      if e.eventId in rows {
        return InvariantBroken;
      }
      NewRowKeepsTable(codec, rows, raw, relayId, policyId, stored, now);
      rows := rows[e.eventId := NewRow(codec.write(e, stored), relayId, policyId, now)];
      r := Inserted(e.eventId);
    }
  }

  // ----- The relay -----

  /** "accepted_marker_unresolved" */
  const MARKER_UNRESOLVED: Text :=
    [0x61, 0x63, 0x63, 0x65, 0x70, 0x74, 0x65, 0x64, 0x5F, 0x6D, 0x61, 0x72, 0x6B, 0x65, 0x72, 0x5F,
     0x75, 0x6E, 0x72, 0x65, 0x73, 0x6F, 0x6C, 0x76, 0x65, 0x64]

  /**
   What one relay call makes of an issued handle and answers. It answers normally only for a row
   published with the id the publisher gave. Rejected and unauthorized calls change nothing. An
   unresolved one reports its claim, unless the mark took effect, and then the row stays published.
   Any other failure is reported under its own classification.
   */
  predicate RelayOutcome(codec: Codec, rows: Table, rows': Table, h: Handle, env: Environment, failedAt: Time,
                         deterministic: set<Text>, r: Result<PublishResult, RelayError>)
  {
    1 <= h.attempt <= MAX_ATTEMPTS &&
    match r
    case Ok(Sent(eventId, messageId)) =>
      && TakesEffect(codec, rows, h, env) && env.reply == Acknowledged(messageId) && eventId == h.eventId
      && IsPublished(rows', h, messageId)
    case Ok(Unresolved(_, _)) => false
    case Err(PublicationUnresolved) =>
      && Acknowledges(codec, rows, h, env)
      && (if TakesEffect(codec, rows, h, env) then IsPublished(rows', h, env.reply.messageId)
          else rows' == FailureUpdate(rows, h, Failure(Ambiguous, MARKER_UNRESOLVED), failedAt).0)
    case Err(PublicationFailed(failure)) =>
      && Reaches(codec, rows, h, env) && PublishError(env).Other?
      && failure == ClassifyProductError(deterministic, PublishError(env).name)
      && rows' == FailureUpdate(rows, h, failure, failedAt).0
    case Err(ClaimRejected) => !Admitted(codec, rows, h, env) && rows' == rows
    case Err(NotAuthorized) => Admitted(codec, rows, h, env) && !env.allowed && rows' == rows
    case Err(Other(_)) => false
  }

  class ProductOutboxRelay {
    const repository: ProductOutboxRepository
    const deterministic: set<Text>

    constructor (repository: ProductOutboxRepository, deterministic: set<Text>)
      ensures this.repository == repository && this.deterministic == deterministic
    {
      this.repository := repository;
      this.deterministic := deterministic;
    }

    /** Errors that leave `publishClaimed` as they are; any other is recorded as a failure of the claim. */
    predicate PassesThrough(e: RelayError) {
      e.ClaimRejected? || e.NotAuthorized? || e.PublicationUnresolved?
    }

    /** The publisher fails with errors of its own, never with one of the relay's. */
    method PublishClaimed(h: Handle, env: Environment, failedAt: Time) returns (r: Result<PublishResult, RelayError>)
      requires repository.Valid()
      requires env.reply.Refused? ==> env.reply.error.Other?
      modifies repository`rows
      ensures repository.Valid()
      ensures h !in repository.handles ==> r == Err(ClaimRejected) && repository.rows == old(repository.rows)
      ensures h in repository.handles ==>
                RelayOutcome(repository.codec, old(repository.rows), repository.rows, h, env, failedAt, deterministic, r)
    {
      var result := repository.PublishClaimed(h, env);
      if result.Ok? && result.value.Sent? {
        return result;
      }
      if result.Ok? {
        MarkerCodeIsSafe();
        Report(h, Failure(Ambiguous, MARKER_UNRESOLVED), failedAt);
        return Err(PublicationUnresolved);
      }
      if PassesThrough(result.error) {
        return result;
      }
      var failure := ClassifyProductError(deterministic, result.error.name);
      ClassificationMeaning(deterministic, result.error.name);
      Report(h, failure, failedAt);
      r := Err(PublicationFailed(failure));
    }

    /** A report for a claim this repository issued is never refused. */
    method Report(h: Handle, failure: Failure, failedAt: Time)
      requires repository.Valid() && h in repository.handles && IsSafeCode(failure.code)
      modifies repository`rows
      ensures repository.Valid()
      ensures 1 <= h.attempt <= MAX_ATTEMPTS && repository.rows == FailureUpdate(old(repository.rows), h, failure, failedAt).0
    {
      assert ValidHandle(repository.codec, h);
      var _ := repository.RecordFailure(h, failure, failedAt);
    }

    /** `None` is the idle relay. */
    method PublishNext(scope: Scope, options: ClaimOptions, token: Text, sweepAt: Time, claimAt: Time, locked: set<Text>,
                       env: Environment, failedAt: Time)
      returns (r: Option<Result<PublishResult, RelayError>>, ghost claim: Option<Handle>, ghost claimed: Table)
      requires repository.Valid() && IsClaimToken(token)
      requires env.reply.Refused? ==> env.reply.error.Other?
      modifies repository`rows, repository`handles
      ensures repository.Valid()
      ensures !(ValidScope(scope) && ValidOptions(options)) ==>
                r == Some(Err(ClaimRejected)) && claim.None? && repository.rows == old(repository.rows)
      ensures ValidScope(scope) && ValidOptions(options) ==>
                && SweepsAndTakes(repository.codec, old(repository.rows), claimed, locked, scope, options, token, sweepAt, ToMilliseconds(claimAt), claim)
                && IsClaimRound(old(repository.rows), claimed, locked, scope, options, token, sweepAt, ToMilliseconds(claimAt), IdOf(claim))
                && (r.None? <==> claim.None?) && (claim.None? ==> repository.rows == claimed)
      ensures claim.Some? ==>
                && r.Some? && claim.value in repository.handles
                && RelayOutcome(repository.codec, claimed, repository.rows, claim.value, env, failedAt, deterministic, r.value)
    {
      var next := repository.ClaimNext(scope, options, token, sweepAt, claimAt, locked);
      claimed, claim := repository.rows, None;
      if next.Err? {
        return Some(Err(next.error)), claim, claimed;
      }
      claim := next.value;
      if next.value.None? {
        return None, claim, claimed;
      }
      var result := PublishClaimed(next.value.value, env, failedAt);
      r := Some(result);
    }
  }

  lemma MarkerCodeIsSafe()
    ensures IsSafeCode(MARKER_UNRESOLVED)
  {
  }
}
