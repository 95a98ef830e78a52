/**
 Every interleaving of inserting transactions, relays claiming and publishing, and relays reporting
 failures. A publishing transaction locks its row when it begins and holds the lock until it
 commits or aborts; sending happens in between. A crash anywhere is an abort.
 */
module OutboxProtocol {
  import opened Utf16
  import opened Wrappers
  import opened CanonicalJson
  import opened Envelopes
  import opened EnvelopeCodec
  import opened ErrorCodes
  import opened ProductOutbox

  datatype Phase = Locked | Acked(messageId: Text) | NotAcked | Marked(messageId: Text, at: Time)

  /** An open publishing transaction. */
  datatype Flight = Flight(handle: Handle, phase: Phase)

  /** A message handed to the publisher. */
  datatype Delivery = Delivery(handle: Handle, body: Text)

  /** A message id the publisher returned for an attempt of an event. */
  datatype Ack = Ack(eventId: Text, attempt: nat, messageId: Text)

  datatype World = World(
    rows: Table,
    clock: Time,
    sources: map<Text, Envelope>,  // what each row was inserted for
    issued: set<Handle>,
    flights: map<Text, Flight>,    // by locked row: open publishing transactions
    started: set<Handle>,          // handles publishClaimed was called with
    sends: seq<Delivery>,
    acks: set<Ack>)

  datatype Event =
    | Tick(elapsed: nat)
    | Insert(raw: RawEnvelope, relayId: Text, policyId: Text, stored: Json)
    | ClaimNext(scope: Scope, options: ClaimOptions, token: Text, claimAt: Time, choice: Option<Text>)
    | Begin(handle: Handle)
    | Send(locked: Text, reply: Option<Text>)
    | Mark(locked: Text)
    | Commit(locked: Text)
    | Abort(locked: Text)
    | Fail(handle: Handle, failure: Failure)

  // ----- Steps -----

  ghost function StepInsert(codec: Codec, w: World, raw: RawEnvelope, relayId: Text, policyId: Text, stored: Json): Option<World> {
    var parsed := codec.parse(raw);
    if parsed.Some? && !IsStoredForm(parsed.value, stored) then None else
    var (rows, result) := InsertOrReplay(codec, w.rows, raw, relayId, policyId, stored, w.clock);
    Some(if result.Inserted? then w.(rows := rows, sources := w.sources[result.eventId := parsed.value]) else w)
  }

  /** The first statement waits for locked rows it is due to sweep; the second skips locked rows. */
  ghost function StepClaim(codec: Codec, w: World, scope: Scope, options: ClaimOptions, token: Text, claimAt: Time, choice: Option<Text>): Option<World> {
    if !ValidScope(scope) || !ValidOptions(options) || !IsClaimToken(token) || claimAt < w.clock then None
    else if exists id :: id in w.rows && id in w.flights.Keys && SweepDue(w.rows[id], scope, w.clock) then None
    else
      var swept, clock := Sweep(w.rows, scope, w.clock), ToMilliseconds(claimAt);
      match choice
      case None =>
        if forall id | id in swept :: !IsCandidate(swept, w.flights.Keys, scope, clock, id)
        then Some(w.(rows := swept, clock := claimAt)) else None
      case Some(id) =>
        if !IsNext(swept, w.flights.Keys, scope, clock, id) then None else
        var claim := Claim(codec, swept, id, clock, options, token);
        if claim.None? then None
        else Some(w.(rows := claim.value.0, clock := claimAt, issued := w.issued + {claim.value.1}))
  }

  ghost function StepBegin(codec: Codec, w: World, h: Handle): Option<World> {
    if h in w.issued && h.eventId !in w.flights && LockMatches(w.rows, h, w.clock)
       && RowMatches(codec, w.rows[h.eventId], h)
    then Some(w.(flights := w.flights[h.eventId := Flight(h, Locked)], started := w.started + {h}))
    else None
  }

  /** The message body is the canonical text of the handle's envelope. */
  ghost function StepSend(codec: Codec, w: World, id: Text, reply: Option<Text>): Option<World> {
    if id !in w.flights || !w.flights[id].phase.Locked? || codec.text(w.flights[id].handle.envelope).None? then None else
    var h := w.flights[id].handle;
    var sent := w.(sends := w.sends + [Delivery(h, codec.text(h.envelope).value)]);
    if reply.Some? && IsMessageId(reply.value) then
      Some(sent.(flights := w.flights[id := Flight(h, Acked(reply.value))],
                 acks := w.acks + {Ack(h.eventId, h.attempt, reply.value)}))
    else Some(sent.(flights := w.flights[id := Flight(h, NotAcked)]))
  }

  ghost function StepMark(w: World, id: Text): Option<World> {
    if id in w.flights && w.flights[id].phase.Acked? && LockMatches(w.rows, w.flights[id].handle, w.clock)
    then Some(w.(flights := w.flights[id := Flight(w.flights[id].handle, Marked(w.flights[id].phase.messageId, w.clock))]))
    else None
  }

  ghost function StepCommit(w: World, id: Text): Option<World> {
    if id in w.flights && w.flights[id].phase.Marked? && id in w.rows then
      Some(w.(rows := w.rows[id := PublishedRow(w.rows[id], w.flights[id].phase.messageId, w.flights[id].phase.at)],
              flights := w.flights - {id}))
    else None
  }

  /** A failure report waits while its row is locked, unless the row is not its claim any more. */
  ghost function StepFail(w: World, h: Handle, failure: Failure): Option<World> {
    if h in w.issued && 1 <= h.attempt <= MAX_ATTEMPTS && IsSafeCode(failure.code)
       && (h.eventId in w.flights.Keys ==> h.eventId in w.rows && !Holds(w.rows[h.eventId], h))
    then Some(w.(rows := FailureUpdate(w.rows, h, failure, w.clock).0))
    else None
  }

  ghost function Step(codec: Codec, w: World, e: Event): Option<World> {
    match e
    case Tick(elapsed) => Some(w.(clock := w.clock + elapsed))
    case Insert(raw, relayId, policyId, stored) => StepInsert(codec, w, raw, relayId, policyId, stored)
    case ClaimNext(scope, options, token, claimAt, choice) => StepClaim(codec, w, scope, options, token, claimAt, choice)
    case Begin(h) => StepBegin(codec, w, h)
    case Send(id, reply) => StepSend(codec, w, id, reply)
    case Mark(id) => StepMark(w, id)
    case Commit(id) => StepCommit(w, id)
    case Abort(id) => Some(w.(flights := w.flights - {id}))
    case Fail(h, failure) => StepFail(w, h, failure)
  }

  ghost function Run(codec: Codec, w: World, events: seq<Event>): Option<World>
    decreases |events|
  {
    if |events| == 0 then Some(w) else
    var next := Step(codec, w, events[0]);
    if next.None? then None else Run(codec, next.value, events[1..])
  }

  ghost predicate Initial(w: World) {
    && w.rows == map[] && w.sources == map[] && w.flights == map[]
    && w.issued == {} && w.started == {} && w.sends == [] && w.acks == {}
  }

  // ----- How one row may change -----

  ghost predicate SameColumns(row: Row, row': Row) {
    row'.columns == row.columns && row'.relayId == row.relayId && row'.policyId == row.policyId && row'.createdAt == row.createdAt
  }

  ghost predicate ClaimMove(row: Row, row': Row) {
    !IsSettled(row) && row.attempt < MAX_ATTEMPTS && row'.attempt == row.attempt + 1 && row'.state.Claimed?
  }

  ghost predicate SettleMove(row: Row, row': Row) {
    && row.state.Claimed? && row'.attempt == row.attempt
    && (IsSettled(row') || (row'.state.RetryWait? && row.attempt < MAX_ATTEMPTS))
  }

  ghost predicate Moves(row: Row, row': Row) {
    row' == row || (SameColumns(row, row') && (ClaimMove(row, row') || SettleMove(row, row')))
  }

  ghost predicate RowsMove(rows: Table, rows': Table) {
    forall id | id in rows :: id in rows' && Moves(rows[id], rows'[id])
  }

  // ----- The invariant -----

  ghost predicate SourcesHold(codec: Codec, rows: Table, sources: map<Text, Envelope>) {
    && rows.Keys == sources.Keys
    && forall id | id in rows :: Carries(codec, rows[id].columns, sources[id])
  }

  /** An issued handle names a claim its row has reached, and matches the row while that claim lasts. */
  ghost predicate HandleFits(codec: Codec, rows: Table, sources: map<Text, Envelope>, h: Handle) {
    && h.eventId in rows && h.eventId in sources
    && h.envelope == sources[h.eventId]
    && 1 <= h.attempt <= rows[h.eventId].attempt
    && (rows[h.eventId].attempt == h.attempt && rows[h.eventId].state.Claimed? ==> RowMatches(codec, rows[h.eventId], h))
  }

  ghost predicate HandlesFit(codec: Codec, rows: Table, sources: map<Text, Envelope>, issued: set<Handle>) {
    forall h | h in issued :: HandleFits(codec, rows, sources, h)
  }

  /** While a flight is open its row stays claimed by the flight's handle. */
  ghost predicate FlightsHold(w: World) {
    forall id | id in w.flights ::
      var h := w.flights[id].handle;
      h in w.issued && h.eventId == id && id in w.rows && Holds(w.rows[id], h)
  }

  ghost predicate Acknowledged(w: World, id: Text, attempt: nat, messageId: Text) {
    Ack(id, attempt, messageId) in w.acks
  }

  ghost predicate Truthful(w: World) {
    && (forall id | id in w.rows && w.rows[id].state.Published? ::
          w.rows[id].messageId.Some? && Acknowledged(w, id, w.rows[id].attempt, w.rows[id].messageId.value))
    && (forall id | id in w.flights ::
          var flight := w.flights[id];
          flight.phase.Acked? || flight.phase.Marked? ==> Acknowledged(w, id, flight.handle.attempt, flight.phase.messageId))
  }

  ghost predicate DeliveriesFit(codec: Codec, w: World) {
    forall d | d in w.sends ::
      && d.handle in w.issued
      && d.handle.eventId in w.sources && codec.text(w.sources[d.handle.eventId]) == Some(d.body)
  }

  ghost predicate Inv(codec: Codec, w: World) {
    && ValidTable(w.rows)
    && SourcesHold(codec, w.rows, w.sources)
    && HandlesFit(codec, w.rows, w.sources, w.issued)
    && FlightsHold(w)
    && Truthful(w)
    && DeliveriesFit(codec, w)
  }

  lemma SweepMoves(rows: Table, scope: Scope, now: Time)
    requires ValidTable(rows)
    ensures RowsMove(rows, Sweep(rows, scope, now)) && ValidTable(Sweep(rows, scope, now))
  {
  }

  lemma OneRowMoves(rows: Table, id: Text, row: Row)
    requires ValidTable(rows) && id in rows && ValidRow(row) && row.columns == rows[id].columns && Moves(rows[id], row)
    ensures RowsMove(rows, rows[id := row]) && ValidTable(rows[id := row]) && rows[id := row].Keys == rows.Keys
  {
  }

  lemma FailedRowMoves(row: Row, h: Handle, failure: Failure, now: Time)
    requires ValidRow(row) && Holds(row, h) && 1 <= h.attempt <= MAX_ATTEMPTS
    ensures h.attempt < 6 ==> ValidRow(RetryRow(row, h, failure, now)) && Moves(row, RetryRow(row, h, failure, now))
    ensures h.attempt == 6 ==> ValidRow(TerminalRow(row, failure, now)) && Moves(row, TerminalRow(row, failure, now))
  {
  }

  lemma FailMoves(w: World, h: Handle, failure: Failure)
    requires ValidTable(w.rows) && 1 <= h.attempt <= MAX_ATTEMPTS
    ensures var rows := FailureUpdate(w.rows, h, failure, w.clock).0;
            && RowsMove(w.rows, rows) && ValidTable(rows) && rows.Keys == w.rows.Keys
            && forall id | id in w.rows && (id == h.eventId ==> !Holds(w.rows[id], h) || rows[id].state.Published?) :: rows[id] == w.rows[id]
  {
    if h.eventId in w.rows && Holds(w.rows[h.eventId], h) {
      var row := w.rows[h.eventId];
      FailedRowMoves(row, h, failure, w.clock);
      OneRowMoves(w.rows, h.eventId, if h.attempt < 6 then RetryRow(row, h, failure, w.clock) else TerminalRow(row, failure, w.clock));
    }
  }

  /** What moving rows keep: sources, handles, and the facts about published rows. */
  lemma MovingKeepsSources(codec: Codec, rows: Table, rows': Table, sources: map<Text, Envelope>)
    requires SourcesHold(codec, rows, sources) && RowsMove(rows, rows') && rows'.Keys == rows.Keys
    ensures SourcesHold(codec, rows', sources)
  {
    assert forall id | id in rows :: rows'[id].columns == rows[id].columns;
  }

  /** A claim number the row has reached is never handed out again. */
  lemma MovingKeepsHandle(codec: Codec, rows: Table, rows': Table, sources: map<Text, Envelope>, h: Handle)
    requires HandleFits(codec, rows, sources, h) && RowsMove(rows, rows')
    ensures HandleFits(codec, rows', sources, h)
  {
    assert Moves(rows[h.eventId], rows'[h.eventId]);
  }

  lemma MovingKeepsHandles(codec: Codec, rows: Table, rows': Table, sources: map<Text, Envelope>, issued: set<Handle>)
    requires HandlesFit(codec, rows, sources, issued) && RowsMove(rows, rows')
    ensures HandlesFit(codec, rows', sources, issued)
  {
    forall h | h in issued
      ensures HandleFits(codec, rows', sources, h)
    {
      MovingKeepsHandle(codec, rows, rows', sources, h);
    }
  }

  /** Rows that move without being published, while locked rows stay as they are. */
  lemma MovingKeepsFlights(w: World, w': World)
    requires FlightsHold(w) && Truthful(w) && RowsMove(w.rows, w'.rows) && w'.rows.Keys == w.rows.Keys
    requires forall id | id in w.flights.Keys && id in w.rows :: w'.rows[id] == w.rows[id]
    requires forall id | id in w.rows && w'.rows[id].state.Published? :: w'.rows[id] == w.rows[id]
    requires w'.flights == w.flights && w'.issued >= w.issued && w'.acks == w.acks && w'.sends == w.sends
    ensures FlightsHold(w') && Truthful(w')
  {
  }

  // ----- Every step keeps the invariant -----

  ghost predicate Keeps(codec: Codec, w: World, w': World) {
    Inv(codec, w') && RowsMove(w.rows, w'.rows)
  }

  /** Rows other than locked ones move, none is published, and nothing else changes but the clock. */
  lemma QuietMove(codec: Codec, w: World, w': World)
    requires Inv(codec, w) && w' == w.(rows := w'.rows, clock := w'.clock)
    requires RowsMove(w.rows, w'.rows) && w'.rows.Keys == w.rows.Keys && ValidTable(w'.rows)
    requires forall id | id in w.flights.Keys && id in w.rows :: w'.rows[id] == w.rows[id]
    requires forall id | id in w.rows && w'.rows[id].state.Published? :: w'.rows[id] == w.rows[id]
    ensures Keeps(codec, w, w')
  {
    MovingKeepsSources(codec, w.rows, w'.rows, w.sources);
    MovingKeepsHandles(codec, w.rows, w'.rows, w.sources, w.issued);
    MovingKeepsFlights(w, w');
  }

  /** An unlocked row is claimed and its handle issued. */
  lemma NewClaim(codec: Codec, w: World, w': World, h: Handle, row: Row)
    requires Inv(codec, w) && h.eventId in w.rows && h.eventId !in w.flights.Keys
    requires w' == w.(rows := w.rows[h.eventId := row], issued := w.issued + {h})
    requires SameColumns(w.rows[h.eventId], row) && ClaimMove(w.rows[h.eventId], row) && ValidRow(row)
    requires h.attempt == row.attempt && h.envelope == w.sources[h.eventId] && RowMatches(codec, row, h)
    ensures Keeps(codec, w, w')
  {
    var mid := w.(rows := w'.rows);
    OneRowMoves(w.rows, h.eventId, row);
    QuietMove(codec, w, mid);
    IssuingKeepsInv(codec, mid, h);
  }

  lemma IssuingKeepsInv(codec: Codec, w: World, h: Handle)
    requires Inv(codec, w) && HandleFits(codec, w.rows, w.sources, h)
    ensures Inv(codec, w.(issued := w.issued + {h}))
  {
  }

  lemma ClaimEligible(codec: Codec, w: World, scope: Scope, options: ClaimOptions, token: Text, clock: Time, id: Text, w': World)
    requires Inv(codec, w) && id in w.rows && id !in w.flights.Keys && Eligible(w.rows[id], scope, clock)
    requires clock % MILLISECOND == 0 && ValidOptions(options) && IsClaimToken(token)
    requires var claim := Claim(codec, w.rows, id, clock, options, token);
             claim.Some? && w' == w.(rows := claim.value.0, issued := w.issued + {claim.value.1})
    ensures Keeps(codec, w, w')
  {
    ClaimSucceeds(codec, w.rows, id, w.sources[id], scope, clock, options, token);
    var h := Claim(codec, w.rows, id, clock, options, token).value.1;
    NewClaim(codec, w, w', h, ClaimedRow(w.rows[id], clock, options, token));
  }

  lemma SweepKeepsInv(codec: Codec, w: World, scope: Scope, claimAt: Time)
    requires Inv(codec, w)
    requires forall id | id in w.flights.Keys && id in w.rows :: !SweepDue(w.rows[id], scope, w.clock)
    ensures Keeps(codec, w, w.(rows := Sweep(w.rows, scope, w.clock), clock := claimAt))
  {
    SweepMoves(w.rows, scope, w.clock);
    QuietMove(codec, w, w.(rows := Sweep(w.rows, scope, w.clock), clock := claimAt));
  }

  /** A row moves at most once in a claim transaction: a swept row is not eligible. */
  lemma MovesOnce(rows: Table, mid: Table, rows': Table)
    requires RowsMove(rows, mid) && RowsMove(mid, rows')
    requires forall id | id in rows :: id in mid && id in rows' && (mid[id] == rows[id] || rows'[id] == mid[id])
    ensures RowsMove(rows, rows')
  {
  }

  lemma ClaimShape(codec: Codec, w: World, scope: Scope, options: ClaimOptions, token: Text, claimAt: Time, choice: Option<Text>, w': World)
    requires StepClaim(codec, w, scope, options, token, claimAt, choice) == Some(w')
    ensures ValidOptions(options) && IsClaimToken(token)
    ensures forall id | id in w.flights && id in w.rows :: !SweepDue(w.rows[id], scope, w.clock)
    ensures var mid := w.(rows := Sweep(w.rows, scope, w.clock), clock := claimAt);
            && (choice.None? ==> w' == mid)
            && (choice.Some? ==>
                  && choice.value in mid.rows && choice.value !in w.flights
                  && Eligible(mid.rows[choice.value], scope, ToMilliseconds(claimAt))
                  && var claim := Claim(codec, mid.rows, choice.value, ToMilliseconds(claimAt), options, token);
                     claim.Some? && w' == mid.(rows := claim.value.0, issued := w.issued + {claim.value.1}))
  {
  }

  lemma ClaimKeepsInv(codec: Codec, w: World, scope: Scope, options: ClaimOptions, token: Text, claimAt: Time, choice: Option<Text>, w': World)
    requires Inv(codec, w) && StepClaim(codec, w, scope, options, token, claimAt, choice) == Some(w')
    ensures Keeps(codec, w, w')
  {
    ClaimShape(codec, w, scope, options, token, claimAt, choice, w');
    var mid := w.(rows := Sweep(w.rows, scope, w.clock), clock := claimAt);
    SweepKeepsInv(codec, w, scope, claimAt);
    if choice.Some? {
      var clock := ToMilliseconds(claimAt);
      ClaimEligible(codec, mid, scope, options, token, clock, choice.value, w');
      ClaimTouchesOne(codec, mid.rows, choice.value, clock, options, token);
      SweepSparesEligible(w.rows, scope, w.clock, clock, choice.value);
      MovesOnce(w.rows, mid.rows, w'.rows);
    }
  }

  lemma SweepSparesEligible(rows: Table, scope: Scope, now: Time, clock: Time, id: Text)
    requires id in rows && Eligible(Sweep(rows, scope, now)[id], scope, clock)
    ensures Sweep(rows, scope, now)[id] == rows[id]
  {
  }

  lemma ClaimTouchesOne(codec: Codec, rows: Table, id: Text, clock: Time, options: ClaimOptions, token: Text)
    requires id in rows && Claim(codec, rows, id, clock, options, token).Some?
    ensures forall other | other in rows && other != id ::
              other in Claim(codec, rows, id, clock, options, token).value.0
              && Claim(codec, rows, id, clock, options, token).value.0[other] == rows[other]
  {
  }

  lemma FailKeepsInv(codec: Codec, w: World, h: Handle, failure: Failure, w': World)
    requires Inv(codec, w) && StepFail(w, h, failure) == Some(w')
    ensures Keeps(codec, w, w')
  {
    FailMoves(w, h, failure);
    QuietMove(codec, w, w');
  }

  /** The flight's row is published with the id its publisher acknowledged, and the lock is released. */
  lemma CommitKeepsInv(codec: Codec, w: World, id: Text, w': World)
    requires Inv(codec, w) && StepCommit(w, id) == Some(w')
    ensures Keeps(codec, w, w')
  {
    var h := w.flights[id].handle;
    var row := PublishedRow(w.rows[h.eventId], w.flights[id].phase.messageId, w.flights[id].phase.at);
    OneRowMoves(w.rows, id, row);
    MovingKeepsSources(codec, w.rows, w'.rows, w.sources);
    MovingKeepsHandles(codec, w.rows, w'.rows, w.sources, w.issued);
    CommitKeepsFlights(w, id, w');
  }

  lemma CommitKeepsFlights(w: World, id: Text, w': World)
    requires FlightsHold(w) && Truthful(w) && StepCommit(w, id) == Some(w')
    ensures FlightsHold(w') && Truthful(w')
  {
  }

  lemma AddingRow(codec: Codec, w: World, w': World, id: Text, row: Row, e: Envelope)
    requires Inv(codec, w) && id !in w.rows
    requires w' == w.(rows := w.rows[id := row], sources := w.sources[id := e])
    requires Carries(codec, row.columns, e) && row.columns.id == id && ValidRow(row) && row.state.Pending?
    ensures Keeps(codec, w, w')
  {
    AddingKeepsHandles(codec, w.rows, w.sources, w.issued, id, row, e);
    AddingKeepsFlights(w, w', id, row);
    AddingKeepsDeliveries(codec, w, w', id, e);
  }

  lemma AddingKeepsDeliveries(codec: Codec, w: World, w': World, id: Text, e: Envelope)
    requires DeliveriesFit(codec, w) && w.sources.Keys == w.rows.Keys && id !in w.rows
    requires w'.sources == w.sources[id := e] && w'.issued == w.issued && w'.sends == w.sends
    ensures DeliveriesFit(codec, w')
  {
  }

  lemma AddingKeepsHandles(codec: Codec, rows: Table, sources: map<Text, Envelope>, issued: set<Handle>, id: Text, row: Row, e: Envelope)
    requires HandlesFit(codec, rows, sources, issued) && id !in rows
    ensures HandlesFit(codec, rows[id := row], sources[id := e], issued)
  {
    forall h | h in issued
      ensures HandleFits(codec, rows[id := row], sources[id := e], h)
    {
      assert HandleFits(codec, rows, sources, h);
    }
  }

  lemma AddingKeepsFlights(w: World, w': World, id: Text, row: Row)
    requires FlightsHold(w) && Truthful(w) && id !in w.rows && !row.state.Published?
    requires w' == w.(rows := w.rows[id := row], sources := w'.sources)
    ensures FlightsHold(w') && Truthful(w')
  {
  }

  lemma InsertShape(codec: Codec, w: World, raw: RawEnvelope, relayId: Text, policyId: Text, stored: Json, w': World)
    requires StepInsert(codec, w, raw, relayId, policyId, stored) == Some(w') && w' != w
    ensures codec.parse(raw).Some? && IsStoredForm(codec.parse(raw).value, stored)
    ensures var e := codec.parse(raw).value;
            && e.eventId !in w.rows
            && w' == w.(rows := w.rows[e.eventId := NewRow(codec.write(e, stored), relayId, policyId, w.clock)],
                        sources := w.sources[e.eventId := e])
  {
  }

  lemma InsertKeepsInv(codec: Codec, w: World, raw: RawEnvelope, relayId: Text, policyId: Text, stored: Json, w': World)
    requires Lawful(codec) && Inv(codec, w) && StepInsert(codec, w, raw, relayId, policyId, stored) == Some(w')
    ensures Keeps(codec, w, w')
  {
    if w' != w {
      InsertShape(codec, w, raw, relayId, policyId, stored, w');
      var e := codec.parse(raw).value;
      WrittenIsCarried(codec, raw, stored);
      AddingRow(codec, w, w', e.eventId, NewRow(codec.write(e, stored), relayId, policyId, w.clock), e);
    }
  }

  lemma WrittenIsCarried(codec: Codec, raw: RawEnvelope, stored: Json)
    requires Lawful(codec) && codec.parse(raw).Some? && IsStoredForm(codec.parse(raw).value, stored)
    ensures Carries(codec, codec.write(codec.parse(raw).value, stored), codec.parse(raw).value)
  {
  }

  lemma BeginKeepsInv(codec: Codec, w: World, h: Handle, w': World)
    requires Inv(codec, w) && StepBegin(codec, w, h) == Some(w')
    ensures Keeps(codec, w, w')
  {
    BeginKeepsFlights(w, h, w');
  }

  lemma BeginKeepsFlights(w: World, h: Handle, w': World)
    requires FlightsHold(w) && Truthful(w) && h in w.issued && h.eventId in w.rows && Holds(w.rows[h.eventId], h)
    requires w' == w.(flights := w.flights[h.eventId := Flight(h, Locked)], started := w'.started)
    ensures FlightsHold(w') && Truthful(w')
  {
  }

  lemma SendKeepsTruth(w: World, id: Text, h: Handle, body: Text, w': World)
    requires FlightsHold(w) && Truthful(w) && id in w.flights && w.flights[id].handle == h
    requires w'.rows == w.rows && w'.issued == w.issued && w'.sends == w.sends + [Delivery(h, body)]
    requires || (w'.acks == w.acks && w'.flights == w.flights[id := Flight(h, NotAcked)])
             || (exists m :: w'.acks == w.acks + {Ack(h.eventId, h.attempt, m)} && w'.flights == w.flights[id := Flight(h, Acked(m))])
    ensures FlightsHold(w') && Truthful(w')
  {
  }

  lemma SendKeepsInv(codec: Codec, w: World, id: Text, reply: Option<Text>, w': World)
    requires Inv(codec, w) && StepSend(codec, w, id, reply) == Some(w')
    ensures Keeps(codec, w, w')
  {
    var h := w.flights[id].handle;
    assert HandleFits(codec, w.rows, w.sources, h);
    SendKeepsTruth(w, id, h, codec.text(h.envelope).value, w');
    SendKeepsDeliveries(codec, w, h, codec.text(h.envelope).value, w');
  }

  lemma SendKeepsDeliveries(codec: Codec, w: World, h: Handle, body: Text, w': World)
    requires DeliveriesFit(codec, w) && h in w.issued && h.eventId in w.sources && codec.text(w.sources[h.eventId]) == Some(body)
    requires w'.issued == w.issued && w'.sources == w.sources && w'.sends == w.sends + [Delivery(h, body)]
    ensures DeliveriesFit(codec, w')
  {
  }

  lemma MarkKeepsInv(codec: Codec, w: World, id: Text, w': World)
    requires Inv(codec, w) && StepMark(w, id) == Some(w')
    ensures Keeps(codec, w, w')
  {
  }

  lemma AbortKeepsInv(codec: Codec, w: World, id: Text)
    requires Inv(codec, w)
    ensures Keeps(codec, w, w.(flights := w.flights - {id}))
  {
  }

  lemma StepKeepsInv(codec: Codec, w: World, e: Event, w': World)
    requires Lawful(codec) && Inv(codec, w) && Step(codec, w, e) == Some(w')
    ensures Keeps(codec, w, w')
  {
    match e
    case Tick(elapsed) => QuietMove(codec, w, w');
    case Insert(raw, relayId, policyId, stored) => InsertKeepsInv(codec, w, raw, relayId, policyId, stored, w');
    case ClaimNext(scope, options, token, claimAt, choice) => ClaimKeepsInv(codec, w, scope, options, token, claimAt, choice, w');
    case Begin(h) => BeginKeepsInv(codec, w, h, w');
    case Send(id, reply) => SendKeepsInv(codec, w, id, reply, w');
    case Mark(id) => MarkKeepsInv(codec, w, id, w');
    case Commit(id) => CommitKeepsInv(codec, w, id, w');
    case Abort(id) => AbortKeepsInv(codec, w, id);
    case Fail(h, failure) => FailKeepsInv(codec, w, h, failure, w');
  }

  lemma {:induction false} RunKeepsInv(codec: Codec, w: World, events: seq<Event>)
    requires Lawful(codec) && Inv(codec, w) && Run(codec, w, events).Some?
    ensures Inv(codec, Run(codec, w, events).value)
    decreases |events|
  {
    if |events| > 0 {
      var next := Step(codec, w, events[0]).value;
      StepKeepsInv(codec, w, events[0], next);
      RunKeepsInv(codec, next, events[1..]);
    }
  }
}
