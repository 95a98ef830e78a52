/**
 Exactly-once commands: the reservation and completion of a command record, and every interleaving
 of command transactions, each of which reserves, writes its effect with one audit event and one
 outbox event, completes, and commits, or aborts anywhere.
 */
module Commands {
  import opened Utf16
  import opened Wrappers
  import opened CanonicalJson
  import opened JsonReader
  import opened CanonicalRoundTrip
  import opened Envelopes
  import opened CommandRequests

  /** The unique key of a command record. */
  datatype Key = Key(tenantId: Text, workspaceId: Text, spaceId: Text, kind: Text, idempotencyKey: Text)

  /** What a second call must share with the first to count as the same call. */
  datatype Identity = Identity(
    schemaVersion: nat,
    requestHash: Text,
    actorUserId: Text,
    actorMembershipId: Text,
    delegatingUserId: Option<Text>,
    delegatingMembershipId: Option<Text>,
    agentPrincipalId: Option<Text>,
    policyVersionId: Text)

  datatype State = Reserved | Completed

  datatype Resource = Resource(resourceType: Text, id: Text)

  datatype CommandRow = CommandRow(id: Text, identity: Identity, state: State, resource: Option<Resource>, response: Option<Json>, completedAt: Option<int>)

  type CommandTable = map<Key, CommandRow>

  datatype Reservation = Reserving(commandId: Text) | Replay(row: CommandRow)

  datatype CommandError = InvariantBroken | DatabaseRefused | IdempotencyConflict

  // ----- The repository -----

  predicate IsLowerHexText(t: Text) {
    |t| == 64 && forall i | 0 <= i < 64 :: IsLowerHex(t[i])
  }

  predicate ValidIdentity(i: Identity) {
    IsLowerHexText(i.requestHash) && (i.delegatingUserId.Some? <==> i.delegatingMembershipId.Some?)
  }

  function IdsOf(commands: CommandTable): set<Text> {
    set key | key in commands :: commands[key].id
  }

  /** `reserve`: insert unless the key exists; otherwise compare identities and look at the state. */
  function ReserveIn(commands: CommandTable, key: Key, identity: Identity, id: Text): (CommandTable, Result<Reservation, CommandError>) {
    if !ValidIdentity(identity) then (commands, Err(InvariantBroken))
    else if key !in commands then
      if id in IdsOf(commands) then (commands, Err(DatabaseRefused))
      else (commands[key := CommandRow(id, identity, Reserved, None, None, None)], Ok(Reserving(id)))
    else if commands[key].identity != identity then (commands, Err(InvariantBroken))
    else if commands[key].state.Reserved? then (commands, Ok(Reserving(commands[key].id)))
    else if commands[key].completedAt.None? then (commands, Err(InvariantBroken))
    else (commands, Ok(Replay(commands[key])))
  }

  /** What the response column holds: the response printed canonically and read back. */
  function StoredResponse(response: Option<Json>): Option<Option<Json>> {
    if response.None? then Some(None)
    else
      var text := Serialize(response.value);
      if text.None? then None else
      var stored := Parse(text.value);
      if stored.None? then None else Some(stored)
  }

  /** `complete`: the reserved record with this id, key and hash, exactly once. */
  function CompleteIn(commands: CommandTable, id: Text, key: Key, requestHash: Text, resource: Option<Resource>, response: Option<Json>, now: int)
    : (CommandTable, Result<CommandRow, CommandError>)
  {
    var stored := StoredResponse(response);
    if stored.None? then (commands, Err(InvariantBroken))
    else if key in commands && commands[key].id == id && commands[key].identity.requestHash == requestHash && commands[key].state.Reserved? then
      var row := commands[key].(state := Completed, resource := resource, response := stored.value, completedAt := Some(now));
      (commands[key := row], Ok(row))
    else (commands, Err(InvariantBroken))
  }

  /** The record of this key is reserved under this id, for this request. */
  predicate IsOpen(commands: CommandTable, id: Text, key: Key, requestHash: Text) {
    && key in commands && commands[key].id == id && commands[key].identity.requestHash == requestHash
    && commands[key].state.Reserved?
  }

  /** The record of this key, and no other, is now completed, with the response as it is stored. */
  predicate IsCompletion(commands: CommandTable, commands': CommandTable, key: Key, resource: Option<Resource>, response: Option<Json>, now: int) {
    && commands'.Keys == commands.Keys
    && (forall other | other in commands && other != key :: commands'[other] == commands[other])
    && key in commands
    && var row := commands'[key];
       && row.id == commands[key].id && row.identity == commands[key].identity
       && row.state.Completed? && row.completedAt == Some(now) && row.resource == resource
       && Some(row.response) == StoredResponse(response)
  }

  /**
   What a reservation does and answers. Only a new key adds a record, reserved under the new id; a
   completed record is replayed exactly to the identity it was reserved for; a reserved one is
   named to that identity; everything else is refused, and nothing else changes the table.
   */
  predicate IsReservation(commands: CommandTable, commands': CommandTable, key: Key, identity: Identity, id: Text, r: Result<Reservation, CommandError>) {
    && (commands' != commands <==> ValidIdentity(identity) && key !in commands && id !in IdsOf(commands))
    && (commands' != commands ==>
          && r == Ok(Reserving(id)) && key in commands' && commands' == commands[key := commands'[key]]
          && commands'[key].id == id && commands'[key].identity == identity && commands'[key].state.Reserved?
          && commands'[key].response.None? && commands'[key].completedAt.None?)
    && (r.Ok? && r.value.Replay? <==>
          ValidIdentity(identity) && key in commands && commands[key].identity == identity
          && commands[key].state.Completed? && commands[key].completedAt.Some?)
    && (r.Ok? && r.value.Replay? ==> r.value.row == commands[key])
    && (key in commands && r.Ok? && r.value.Reserving? <==>
          ValidIdentity(identity) && key in commands && commands[key].identity == identity && commands[key].state.Reserved?)
    && (key in commands && r.Ok? && r.value.Reserving? ==> r.value.commandId == commands[key].id)
    && (r == Err(DatabaseRefused) <==> ValidIdentity(identity) && key !in commands && id in IdsOf(commands))
    && r != Err(IdempotencyConflict)
  }

  class DomainCommandRepository {
    var commands: CommandTable

    method Reserve(key: Key, identity: Identity, id: Text) returns (r: Result<Reservation, CommandError>)
      modifies this
      ensures (commands, r) == ReserveIn(old(commands), key, identity, id)
      ensures IsReservation(old(commands), commands, key, identity, id, r)
    {
      if !ValidIdentity(identity) {
        return Err(InvariantBroken);
      }
      if key !in commands {
        if id in IdsOf(commands) {
          return Err(DatabaseRefused);
        }
        commands := commands[key := CommandRow(id, identity, Reserved, None, None, None)];
        return Ok(Reserving(id));
      }
      var row := commands[key];
      if row.identity != identity {
        return Err(InvariantBroken);
      }
      if row.state.Reserved? {
        return Ok(Reserving(row.id));
      }
      if row.completedAt.None? {
        return Err(InvariantBroken);
      }
      r := Ok(Replay(row));
    }

    method Complete(id: Text, key: Key, requestHash: Text, resource: Option<Resource>, response: Option<Json>, now: int) returns (r: Result<CommandRow, CommandError>)
      modifies this
      ensures (commands, r) == CompleteIn(old(commands), id, key, requestHash, resource, response, now)
      ensures r.Err? ==> r.error.InvariantBroken? && commands == old(commands)
      ensures r.Ok? <==> IsOpen(old(commands), id, key, requestHash) && StoredResponse(response).Some?
      ensures r.Ok? ==> IsCompletion(old(commands), commands, key, resource, response, now) && commands[key] == r.value
    {
      var stored := StoredResponse(response);
      if stored.None? || key !in commands {
        return Err(InvariantBroken);
      }
      var row := commands[key];
      if row.id != id || row.identity.requestHash != requestHash || !row.state.Reserved? {
        return Err(InvariantBroken);
      }
      row := row.(state := Completed, resource := resource, response := stored.value, completedAt := Some(now));
      commands := commands[key := row];
      r := Ok(row);
    }
  }

  /** A printable response is stored as itself, with the members of its objects in key order. */
  lemma PrintableResponseIsStored(response: Json)
    requires Printable(response)
    ensures StoredResponse(Some(response)) == Some(Some(Normal(response)))
  {
    RoundTrip(response);
  }

  /** The bus turns a broken invariant of the reservation into a conflict, and refuses to take over a reservation. */
  function ReserveCommand(commands: CommandTable, key: Key, identity: Identity, id: Text): Result<Reservation, CommandError> {
    var r := ReserveIn(commands, key, identity, id).1;
    if r.Err? then (if r.error.InvariantBroken? then Err(IdempotencyConflict) else r)
    else if r.value.Reserving? && r.value.commandId != id then Err(InvariantBroken)
    else r
  }

  // ----- Transactions -----

  datatype Phase = Started | Audited | Announced | Finished

  /** An open transaction that reserved `key`: what it has written and not yet committed. */
  datatype Flight = Flight(key: Key, row: CommandRow, phase: Phase, auditId: Text, eventId: Text)

  /** The committed tables; audit and outbox events by id, each with its causation command id. */
  datatype World = World(commands: CommandTable, audits: map<Text, Text>, outbox: map<Text, Text>, flights: map<nat, Flight>)

  datatype Event =
    | Reserve(flight: nat, key: Key, identity: Identity, id: Text)
    | InsertAudit(flight: nat, auditId: Text)
    | InsertOutbox(flight: nat, eventId: Text)
    | Complete(flight: nat, resource: Option<Resource>, response: Option<Json>, now: int)
    | Commit(flight: nat)
    | Abort(flight: nat)

  function FlightIds(w: World): set<Text> {
    set f | f in w.flights :: w.flights[f].row.id
  }

  /**
   The insert waits while another transaction holds the same key or the same id. A replay, a
   conflict and a refusal end the transaction with nothing written.
   */
  ghost function StepReserve(w: World, f: nat, key: Key, identity: Identity, id: Text): Option<World> {
    if f in w.flights || (exists g | g in w.flights :: w.flights[g].key == key) || id in FlightIds(w) then None
    else
      var r := ReserveCommand(w.commands, key, identity, id);
      if r.Ok? && r.value.Reserving? then
        Some(w.(flights := w.flights[f := Flight(key, CommandRow(id, identity, Reserved, None, None, None), Started, [], [])]))
      else Some(w)
  }

  ghost function StepAudit(w: World, f: nat, auditId: Text): Option<World> {
    if f !in w.flights || !w.flights[f].phase.Started? || auditId in w.audits
       || (exists g | g in w.flights :: !w.flights[g].phase.Started? && w.flights[g].auditId == auditId)
    then None
    else Some(w.(flights := w.flights[f := w.flights[f].(phase := Audited, auditId := auditId)]))
  }

  ghost function StepOutbox(w: World, f: nat, eventId: Text): Option<World> {
    if f !in w.flights || !w.flights[f].phase.Audited? || eventId in w.outbox
       || (exists g | g in w.flights :: HasEvent(w.flights[g]) && w.flights[g].eventId == eventId)
    then None
    else Some(w.(flights := w.flights[f := w.flights[f].(phase := Announced, eventId := eventId)]))
  }

  predicate HasEvent(flight: Flight) {
    flight.phase.Announced? || flight.phase.Finished?
  }

  ghost function StepComplete(w: World, f: nat, resource: Option<Resource>, response: Option<Json>, now: int): Option<World> {
    if f !in w.flights || !w.flights[f].phase.Announced? then None
    else
      var flight := w.flights[f];
      var r := CompleteIn(map[flight.key := flight.row], flight.row.id, flight.key, flight.row.identity.requestHash, resource, response, now).1;
      if r.Err? then None else Some(w.(flights := w.flights[f := flight.(phase := Finished, row := r.value)]))
  }

  ghost function StepCommit(w: World, f: nat): Option<World> {
    if f !in w.flights || !w.flights[f].phase.Finished? then None
    else
      var flight := w.flights[f];
      Some(World(w.commands[flight.key := flight.row],
                 w.audits[flight.auditId := flight.row.id],
                 w.outbox[flight.eventId := flight.row.id],
                 w.flights - {f}))
  }

  ghost function Step(w: World, e: Event): Option<World> {
    match e
    case Reserve(f, key, identity, id) => StepReserve(w, f, key, identity, id)
    case InsertAudit(f, auditId) => StepAudit(w, f, auditId)
    case InsertOutbox(f, eventId) => StepOutbox(w, f, eventId)
    case Complete(f, resource, response, now) => StepComplete(w, f, resource, response, now)
    case Commit(f) => StepCommit(w, f)
    case Abort(f) => Some(w.(flights := w.flights - {f}))
  }

  ghost function Run(w: World, events: seq<Event>): Option<World>
    decreases |events|
  {
    if |events| == 0 then Some(w)
    else if Step(w, events[0]).None? then None
    else Run(Step(w, events[0]).value, events[1..])
  }

  // ----- The invariant -----

  /** `records` holds exactly one record for each command id. */
  ghost predicate OneEach(commands: CommandTable, records: map<Text, Text>) {
    && (forall r | r in records :: records[r] in IdsOf(commands))
    && (forall key | key in commands :: exists r | r in records :: records[r] == commands[key].id)
    && (forall r, s | r in records && s in records && records[r] == records[s] :: r == s)
  }

  ghost predicate DistinctIds(commands: CommandTable) {
    forall k, l | k in commands && l in commands && commands[k].id == commands[l].id :: k == l
  }

  ghost predicate FlightFits(w: World, flight: Flight) {
    && flight.key !in w.commands && flight.row.id !in IdsOf(w.commands)
    && (!flight.phase.Started? ==> flight.auditId !in w.audits)
    && (HasEvent(flight) ==> flight.eventId !in w.outbox)
    && (flight.phase.Finished? <==> flight.row.state.Completed?)
    && (flight.row.state.Completed? ==> flight.row.completedAt.Some?)
    && ValidIdentity(flight.row.identity)
  }

  ghost predicate FlightsDiffer(a: Flight, b: Flight) {
    && a.key != b.key && a.row.id != b.row.id
    && (!a.phase.Started? && !b.phase.Started? ==> a.auditId != b.auditId)
    && (HasEvent(a) && HasEvent(b) ==> a.eventId != b.eventId)
  }

  ghost predicate AllCompleted(commands: CommandTable) {
    forall key | key in commands ::
      commands[key].state.Completed? && commands[key].completedAt.Some? && ValidIdentity(commands[key].identity)
  }

  ghost predicate TablesFit(w: World) {
    && AllCompleted(w.commands) && DistinctIds(w.commands)
    && OneEach(w.commands, w.audits) && OneEach(w.commands, w.outbox)
  }

  ghost predicate FlightsFit(w: World) {
    && (forall f | f in w.flights :: FlightFits(w, w.flights[f]))
    && (forall f, g | f in w.flights && g in w.flights && f != g :: FlightsDiffer(w.flights[f], w.flights[g]))
  }

  ghost predicate Inv(w: World) {
    TablesFit(w) && FlightsFit(w)
  }

  ghost predicate Initial(w: World) {
    w == World(map[], map[], map[], map[])
  }

  lemma OneMore(commands: CommandTable, records: map<Text, Text>, key: Key, row: CommandRow, r: Text)
    requires OneEach(commands, records) && key !in commands && row.id !in IdsOf(commands) && r !in records
    ensures OneEach(commands[key := row], records[r := row.id])
  {
    var commands', records' := commands[key := row], records[r := row.id];
    assert commands'[key].id in IdsOf(commands');
    forall id | id in IdsOf(commands)
      ensures id in IdsOf(commands')
    {
      var k :| k in commands && commands[k].id == id;
      assert commands'[k].id == id;
    }
    forall k | k in commands'
      ensures exists s | s in records' :: records'[s] == commands'[k].id
    {
      if k == key {
        assert records'[r] == row.id;
      } else {
        var s :| s in records && records[s] == commands[k].id;
        assert records'[s] == commands'[k].id;
      }
    }
  }

  lemma AddingKeepsIdsDistinct(commands: CommandTable, key: Key, row: CommandRow)
    requires DistinctIds(commands) && key !in commands && row.id !in IdsOf(commands)
    ensures DistinctIds(commands[key := row])
  {
    assert forall k | k in commands :: commands[k].id in IdsOf(commands);
  }

  lemma CommitKeepsTables(w: World, f: nat, w': World)
    requires TablesFit(w) && StepCommit(w, f) == Some(w') && FlightFits(w, w.flights[f])
    ensures TablesFit(w')
  {
    var flight := w.flights[f];
    OneMore(w.commands, w.audits, flight.key, flight.row, flight.auditId);
    OneMore(w.commands, w.outbox, flight.key, flight.row, flight.eventId);
    AddingKeepsIdsDistinct(w.commands, flight.key, flight.row);
  }

  lemma CommitKeepsFlights(w: World, f: nat, w': World)
    requires FlightsFit(w) && StepCommit(w, f) == Some(w')
    ensures FlightsFit(w')
  {
    forall g | g in w'.flights
      ensures FlightFits(w', w'.flights[g])
    {
      assert FlightFits(w, w.flights[g]) && FlightsDiffer(w.flights[f], w.flights[g]);
    }
  }

  /** One flight is added or changed and still fits beside the others. */
  lemma FlightChanged(w: World, f: nat, flight: Flight)
    requires FlightsFit(w) && FlightFits(w, flight)
    requires forall g | g in w.flights && g != f :: FlightsDiffer(flight, w.flights[g]) && FlightsDiffer(w.flights[g], flight)
    ensures FlightsFit(w.(flights := w.flights[f := flight]))
  {
    var w' := w.(flights := w.flights[f := flight]);
    assert forall g | g in w'.flights :: FlightFits(w, w'.flights[g]);
  }

  lemma ReserveKeepsFlights(w: World, f: nat, key: Key, identity: Identity, id: Text, w': World)
    requires AllCompleted(w.commands) && FlightsFit(w) && StepReserve(w, f, key, identity, id) == Some(w')
    ensures FlightsFit(w')
  {
    if w' != w {
      forall g | g in w.flights
        ensures w.flights[g].row.id in FlightIds(w)
      {
      }
      FlightChanged(w, f, w'.flights[f]);
    }
  }

  lemma WritingKeepsFlights(w: World, e: Event, w': World)
    requires FlightsFit(w) && Step(w, e) == Some(w') && (e.InsertAudit? || e.InsertOutbox? || e.Complete?)
    ensures FlightsFit(w')
  {
    var flight := w'.flights[e.flight];
    assert FlightFits(w, w.flights[e.flight]);
    assert forall g | g in w.flights && g != e.flight ::
        FlightsDiffer(w.flights[e.flight], w.flights[g]) && FlightsDiffer(w.flights[g], w.flights[e.flight]);
    FlightChanged(w, e.flight, flight);
  }

  lemma StepKeepsInv(w: World, e: Event, w': World)
    requires Inv(w) && Step(w, e) == Some(w')
    ensures Inv(w')
  {
    match e
    case Reserve(f, key, identity, id) => ReserveKeepsFlights(w, f, key, identity, id, w');
    case Commit(f) =>
      CommitKeepsTables(w, f, w');
      CommitKeepsFlights(w, f, w');
    case Abort(f) =>
    case _ => WritingKeepsFlights(w, e, w');
  }

  lemma {:induction false} RunKeepsInv(w: World, events: seq<Event>)
    requires Inv(w) && Run(w, events).Some?
    ensures Inv(Run(w, events).value)
    decreases |events|
  {
    if |events| > 0 {
      StepKeepsInv(w, events[0], Step(w, events[0]).value);
      RunKeepsInv(Step(w, events[0]).value, events[1..]);
    }
  }

  // ----- Conservation -----

  /** One new command, one audit event and one outbox event, the latter two naming the first. */
  ghost predicate AddsOneEach(w: World, w': World) {
    exists key, audit, event |
      && key in w'.commands && key !in w.commands
      && audit in w'.audits && audit !in w.audits
      && event in w'.outbox && event !in w.outbox ::
        && w'.commands == w.commands[key := w'.commands[key]]
        && w'.audits == w.audits[audit := w'.commands[key].id]
        && w'.outbox == w.outbox[event := w'.commands[key].id]
  }

  ghost predicate AddsNothing(w: World, w': World) {
    w'.commands == w.commands && w'.audits == w.audits && w'.outbox == w.outbox
  }

  /**
   In every committed state, whatever aborted on the way: no command is left reserved, and completed
   commands, audit events and outbox events correspond one to one through the command id. From
   there a commit adds one of each, and every other step, a replay, a refusal or an abort, nothing.
   */
  lemma Conservation(w: World, events: seq<Event>, e: Event)
    requires Initial(w) && Run(w, events).Some?
    ensures var w' := Run(w, events).value;
            && AllCompleted(w'.commands) && DistinctIds(w'.commands)
            && OneEach(w'.commands, w'.audits) && OneEach(w'.commands, w'.outbox)
            && StepAdds(w', e)
  {
    RunKeepsInv(w, events);
    StepAddsOneEachOrNothing(Run(w, events).value, e);
  }

  ghost predicate StepAdds(w: World, e: Event) {
    Step(w, e).Some? ==> if e.Commit? then AddsOneEach(w, Step(w, e).value) else AddsNothing(w, Step(w, e).value)
  }

  lemma StepAddsOneEachOrNothing(w: World, e: Event)
    requires Inv(w)
    ensures StepAdds(w, e)
  {
    if e.Commit? {
      if StepCommit(w, e.flight).Some? {
        CommitAddsOneEach(w, e.flight);
      }
    } else {
      OthersAddNothing(w, e);
    }
  }

  lemma OthersAddNothing(w: World, e: Event)
    requires !e.Commit?
    ensures Step(w, e).Some? ==> AddsNothing(w, Step(w, e).value)
  {
  }

  lemma CommitAddsOneEach(w: World, f: nat)
    requires Inv(w) && StepCommit(w, f).Some?
    ensures AddsOneEach(w, StepCommit(w, f).value)
  {
    var flight, w' := w.flights[f], StepCommit(w, f).value;
    assert FlightFits(w, flight);
    assert flight.key in w'.commands && flight.auditId in w'.audits && flight.eventId in w'.outbox;
    assert w'.commands[flight.key] == flight.row;
  }

  // ----- Exactly once -----

  lemma StepKeepsCommands(w: World, e: Event, w': World, key: Key)
    requires Inv(w) && Step(w, e) == Some(w') && key in w.commands
    ensures key in w'.commands && w'.commands[key] == w.commands[key]
    ensures e.Commit? ==> e.flight in w.flights && w.flights[e.flight].key != key
  {
    if e.Commit? {
      assert FlightFits(w, w.flights[e.flight]);
    }
  }

  /** A completed command is final. */
  lemma {:induction false} CompletedIsFinal(w: World, events: seq<Event>, key: Key)
    requires Inv(w) && Run(w, events).Some? && key in w.commands
    ensures key in Run(w, events).value.commands && Run(w, events).value.commands[key] == w.commands[key]
    decreases |events|
  {
    if |events| > 0 {
      var next := Step(w, events[0]).value;
      StepKeepsInv(w, events[0], next);
      StepKeepsCommands(w, events[0], next, key);
      CompletedIsFinal(next, events[1..], key);
    }
  }

  /**
   Every later call under the same key: with the same identity it gets the stored record, with any
   other it is refused; either way nothing changes, now and at the end of any run.
   */
  lemma LaterCallsReplayOrConflict(w: World, events: seq<Event>, f: nat, key: Key, identity: Identity, id: Text)
    requires Inv(w) && Run(w, events).Some? && key in w.commands && ValidIdentity(identity)
    ensures var w' := Run(w, events).value;
            && ReserveCommand(w'.commands, key, identity, id) ==
               (if identity == w.commands[key].identity then Ok(Replay(w.commands[key])) else Err(IdempotencyConflict))
            && (Step(w', Reserve(f, key, identity, id)).Some? ==> Step(w', Reserve(f, key, identity, id)) == Some(w'))
  {
    CompletedIsFinal(w, events, key);
    RunKeepsInv(w, events);
    CompletedAnswers(Run(w, events).value, f, key, identity, id);
  }

  lemma CompletedAnswers(w: World, f: nat, key: Key, identity: Identity, id: Text)
    requires AllCompleted(w.commands) && key in w.commands && ValidIdentity(identity)
    ensures ReserveCommand(w.commands, key, identity, id) ==
            if identity == w.commands[key].identity then Ok(Replay(w.commands[key])) else Err(IdempotencyConflict)
    ensures Step(w, Reserve(f, key, identity, id)).Some? ==> Step(w, Reserve(f, key, identity, id)) == Some(w)
  {
  }

  // ----- What is stored is what was asked -----

  ghost predicate Ends(e: Event, f: nat) {
    e == Commit(f) || e == Abort(f)
  }

  lemma {:induction false} RunConcat(w: World, a: seq<Event>, b: seq<Event>)
    requires Run(w, a + b).Some?
    ensures Run(w, a).Some? && Run(Run(w, a).value, b) == Run(w, a + b)
    decreases |a|
  {
    if a == [] {
      assert a + b == b;
    } else {
      assert (a + b)[0] == a[0] && (a + b)[1..] == a[1..] + b;
      RunConcat(Step(w, a[0]).value, a[1..], b);
    }
  }

  /** Until it ends or completes, a flight holds the record it reserved; once complete, the completed one. */
  ghost predicate FlightGoesOn(flight: Flight, flight': Flight) {
    && flight'.key == flight.key
    && (flight.phase.Finished? || !flight'.phase.Finished? ==> flight'.row == flight.row)
    && (flight.phase.Finished? ==> flight'.phase.Finished?)
  }

  lemma {:induction false} FlightStays(w: World, events: seq<Event>, f: nat)
    requires f in w.flights && Run(w, events).Some? && forall e | e in events :: !Ends(e, f)
    ensures f in Run(w, events).value.flights && FlightGoesOn(w.flights[f], Run(w, events).value.flights[f])
    decreases |events|
  {
    if |events| > 0 {
      var next := Step(w, events[0]).value;
      assert events[0] in events && !Ends(events[0], f);
      assert f in next.flights && FlightGoesOn(w.flights[f], next.flights[f]);
      FlightStays(next, events[1..], f);
    }
  }

  /** The record says who asked for what, and what came of it. */
  ghost predicate Records(row: CommandRow, id: Text, identity: Identity, resource: Option<Resource>, response: Option<Json>, now: int) {
    && row.id == id && row.identity == identity
    && row.state.Completed? && row.resource == resource && row.completedAt == Some(now)
    && (response.None? ==> row.response.None?)
    && (response.Some? && Printable(response.value) ==> row.response == Some(Normal(response.value)))
  }

  lemma CompleteRecords(w: World, f: nat, resource: Option<Resource>, response: Option<Json>, now: int)
    requires f in w.flights && Step(w, Complete(f, resource, response, now)).Some?
    ensures var w' := Step(w, Complete(f, resource, response, now)).value;
            && f in w'.flights && w'.flights[f].key == w.flights[f].key && w'.flights[f].phase.Finished?
            && Records(w'.flights[f].row, w.flights[f].row.id, w.flights[f].row.identity, resource, response, now)
  {
    if response.Some? && Printable(response.value) {
      PrintableResponseIsStored(response.value);
    }
  }

  /** A whole transaction, from its reservation to its commit, whatever others do in between. */
  ghost function Transaction(f: nat, key: Key, identity: Identity, id: Text, during: seq<Event>,
                             resource: Option<Resource>, response: Option<Json>, now: int, after: seq<Event>): seq<Event>
  {
    [Reserve(f, key, identity, id)] + (during + ([Complete(f, resource, response, now)] + (after + [Commit(f)])))
  }

  lemma TransactionRecords(w: World, f: nat, key: Key, identity: Identity, id: Text, during: seq<Event>,
                           resource: Option<Resource>, response: Option<Json>, now: int, after: seq<Event>)
    requires Run(w, Transaction(f, key, identity, id, during, resource, response, now, after)).Some?
    requires f in Step(w, Reserve(f, key, identity, id)).value.flights
    requires forall e | e in during + after :: !Ends(e, f)
    ensures var w' := Run(w, Transaction(f, key, identity, id, during, resource, response, now, after)).value;
            ValidIdentity(identity) && key in w'.commands && Records(w'.commands[key], id, identity, resource, response, now)
  {
    var tail := after + [Commit(f)];
    var complete := Complete(f, resource, response, now);
    var w0 := Step(w, Reserve(f, key, identity, id)).value;
    assert w0.flights[f] == Flight(key, CommandRow(id, identity, Reserved, None, None, None), Started, [], []);
    assert (forall e | e in during :: e in during + after) && (forall e | e in after :: e in during + after);
    var w1 := RunTo(w0, during, [complete] + tail);
    FlightStays(w0, during, f);
    CompleteRecords(w1, f, resource, response, now);
    var w2 := RunTo(w1, [complete], tail);
    var w3 := RunTo(w2, after, [Commit(f)]);
    FlightStays(w2, after, f);
  }

  lemma RunTo(w: World, a: seq<Event>, b: seq<Event>) returns (mid: World)
    requires Run(w, a + b).Some?
    ensures Run(w, a) == Some(mid) && Run(mid, b) == Run(w, a + b)
    ensures |a| == 1 ==> Step(w, a[0]) == Some(mid)
    ensures |b| > 0 ==> Step(mid, b[0]).Some?
  {
    RunConcat(w, a, b);
    mid := Run(w, a).value;
  }

  /**
   The law of the command bus. A call that reserves, completes and commits, whatever other
   transactions do meanwhile, leaves the record of its own id, identity, resource, response and
   time. From then on, in every later state, the same call made again by the same identity is
   answered with that record, by any other is refused, and changes nothing.
   */
  lemma SameCallIsReplayed(w: World, f: nat, key: Key, identity: Identity, id: Text, during: seq<Event>,
                           resource: Option<Resource>, response: Option<Json>, now: int, after: seq<Event>, later: seq<Event>,
                           g: nat, again: Identity, id': Text)
    requires Inv(w) && Run(w, Transaction(f, key, identity, id, during, resource, response, now, after) + later).Some?
    requires f in Step(w, Reserve(f, key, identity, id)).value.flights
    requires forall e | e in during + after :: !Ends(e, f)
    ensures var w' := Run(w, Transaction(f, key, identity, id, during, resource, response, now, after) + later).value;
            && key in w'.commands && Records(w'.commands[key], id, identity, resource, response, now)
            && (again == identity ==> ReserveCommand(w'.commands, key, again, id') == Ok(Replay(w'.commands[key])))
            && (again != identity ==> ReserveCommand(w'.commands, key, again, id') == Err(IdempotencyConflict))
            && (Step(w', Reserve(g, key, again, id')).Some? ==> Step(w', Reserve(g, key, again, id')) == Some(w'))
  {
    var transaction := Transaction(f, key, identity, id, during, resource, response, now, after);
    var committed := RunTo(w, transaction, later);
    TransactionRecords(w, f, key, identity, id, during, resource, response, now, after);
    RunKeepsInv(w, transaction);
    CompletedIsFinal(committed, later, key);
    if ValidIdentity(again) {
      LaterCallsReplayOrConflict(committed, later, g, key, again, id');
    }
  }

  /** How many commits of the run are for this key. */
  ghost function Completions(w: World, events: seq<Event>, key: Key): nat
    decreases |events|
  {
    if |events| == 0 || Step(w, events[0]).None? then 0 else
    var e := events[0];
    (if e.Commit? && e.flight in w.flights && w.flights[e.flight].key == key then 1 else 0)
      + Completions(Step(w, e).value, events[1..], key)
  }

  /** Over any run each key completes at most once. */
  lemma {:induction false} AtMostOneCompletion(w: World, events: seq<Event>, key: Key)
    requires Inv(w) && Run(w, events).Some?
    ensures Completions(w, events, key) <= (if key in w.commands then 0 else 1)
    decreases |events|
  {
    if |events| > 0 {
      var next := Step(w, events[0]).value;
      StepKeepsInv(w, events[0], next);
      if key in w.commands {
        StepKeepsCommands(w, events[0], next, key);
      }
      AtMostOneCompletion(next, events[1..], key);
    }
  }

  // ----- The same request -----

  datatype Caller = Caller(userId: Text, membershipId: Text, delegatingUserId: Option<Text>, delegatingMembershipId: Option<Text>, policyVersionId: Text)

  const COMMAND_SCHEMA_VERSION: nat := 1

  function IdentityOf(requestHash: Text, caller: Caller): Identity {
    Identity(COMMAND_SCHEMA_VERSION, requestHash, caller.userId, caller.membershipId, caller.delegatingUserId,
             caller.delegatingMembershipId, None, caller.policyVersionId)
  }

  /** The record names the caller and the request it was made by. */
  predicate MadeBy(row: CommandRow, requestHash: Text, caller: Caller) {
    && row.identity.requestHash == requestHash
    && row.identity.actorUserId == caller.userId && row.identity.actorMembershipId == caller.membershipId
    && row.identity.delegatingUserId == caller.delegatingUserId
    && row.identity.delegatingMembershipId == caller.delegatingMembershipId
    && row.identity.policyVersionId == caller.policyVersionId
  }

  /**
   A request that was carried out is replayed, in every later state, exactly to the same caller
   under the same policy asking the same thing: the same kind, and a payload that differs at most
   in member order and in order and repetition within the id arrays.
   */
  lemma SameRequestIsReplayed(hash: Text -> Text, w: World, f: nat, key: Key, r: Request, caller: Caller, id: Text, during: seq<Event>,
                              resource: Option<Resource>, response: Option<Json>, now: int, after: seq<Event>, later: seq<Event>,
                              s: Request, again: Caller, id': Text)
    requires Injective(hash) && GoodPayload(r.payload) && GoodPayload(s.payload)
    requires RequestHash(hash, r).Some? && RequestHash(hash, s).Some?
    requires ValidIdentity(IdentityOf(RequestHash(hash, s).value, again))
    requires var identity := IdentityOf(RequestHash(hash, r).value, caller);
             && Inv(w) && Run(w, Transaction(f, key, identity, id, during, resource, response, now, after) + later).Some?
             && f in Step(w, Reserve(f, key, identity, id)).value.flights
    requires forall e | e in during + after :: !Ends(e, f)
    ensures var identity := IdentityOf(RequestHash(hash, r).value, caller);
            var commands := Run(w, Transaction(f, key, identity, id, during, resource, response, now, after) + later).value.commands;
            && key in commands && commands[key].id == id && MadeBy(commands[key], RequestHash(hash, r).value, caller)
            && (ReserveCommand(commands, key, IdentityOf(RequestHash(hash, s).value, again), id') == Ok(Replay(commands[key])) <==>
                  r.kind == s.kind && SamePayload(r.payload, s.payload) && caller == again)
  {
    HashesTellRequests(hash, r, s);
    SameCallIsReplayed(w, f, key, IdentityOf(RequestHash(hash, r).value, caller), id, during, resource, response, now, after, later,
                       0, IdentityOf(RequestHash(hash, s).value, again), id');
  }
}
