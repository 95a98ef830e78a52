/**
 What holds over every run of the outbox protocol: fencing, at most six claims and twelve changes of
 a row, settled rows that never change, at most six sends, truthful publication of exactly the
 envelope inserted, and progress once the clock is late enough.
 */
module OutboxTheorems {
  import opened Utf16
  import opened Wrappers
  import opened CanonicalJson
  import opened Envelopes
  import opened EnvelopeCodec
  import opened ErrorCodes
  import opened ProductOutbox
  import opened OutboxProtocol
  import JsonReader
  import SentText

  // ----- Fencing -----

  /** At most one issued handle of an event satisfies the conditions of its statements. */
  lemma OneHolder(codec: Codec, w: World, h: Handle, k: Handle)
    requires Inv(codec, w) && h in w.issued && k in w.issued && h.eventId == k.eventId
    requires h.eventId in w.rows && Holds(w.rows[h.eventId], h) && Holds(w.rows[h.eventId], k)
    ensures h == k
  {
    assert HandleFits(codec, w.rows, w.sources, h) && HandleFits(codec, w.rows, w.sources, k);
  }

  /** Comparing the locked row with the handle never rejects a row the lock statement found. */
  lemma LockedRowMatches(codec: Codec, w: World, h: Handle, now: Time)
    requires Inv(codec, w) && h in w.issued && LockMatches(w.rows, h, now)
    ensures RowMatches(codec, w.rows[h.eventId], h)
    ensures h.eventId !in w.flights && now == w.clock ==> Step(codec, w, Begin(h)).Some?
  {
    assert HandleFits(codec, w.rows, w.sources, h);
  }

  /** Along a run a row keeps its columns, its attempt number never falls, and once settled it is constant. */
  ghost predicate Later(row: Row, row': Row) {
    && row'.columns == row.columns && ScopeOf(row') == ScopeOf(row)
    && row.attempt <= row'.attempt
    && (IsSettled(row) ==> row' == row)
    && (row.attempt == row'.attempt && !row.state.Claimed? ==> !row'.state.Claimed?)
    && (row.attempt == row'.attempt && row.state.Claimed? && row'.state.Claimed? ==> row' == row)
  }

  lemma MovesAreLater(row: Row, mid: Row, row': Row)
    requires Moves(row, mid) && Later(mid, row')
    ensures Later(row, row')
  {
  }

  lemma {:induction false} RunIsLater(codec: Codec, w: World, events: seq<Event>, id: Text)
    requires Lawful(codec) && Inv(codec, w) && Run(codec, w, events).Some? && id in w.rows
    ensures id in Run(codec, w, events).value.rows && Later(w.rows[id], Run(codec, w, events).value.rows[id])
    decreases |events|
  {
    if |events| > 0 {
      var next := Step(codec, w, events[0]).value;
      StepKeepsInv(codec, w, events[0], next);
      RunIsLater(codec, next, events[1..], id);
      MovesAreLater(w.rows[id], next.rows[id], Run(codec, w, events).value.rows[id]);
    }
  }

  /** A settled row never changes again. */
  lemma SettledIsFinal(codec: Codec, w: World, events: seq<Event>, id: Text)
    requires Lawful(codec) && Inv(codec, w) && Run(codec, w, events).Some?
    requires id in w.rows && IsSettled(w.rows[id])
    ensures id in Run(codec, w, events).value.rows && Run(codec, w, events).value.rows[id] == w.rows[id]
  {
    RunIsLater(codec, w, events, id);
  }

  lemma LostClaim(row: Row, row': Row, h: Handle)
    requires Later(row, row') && h.attempt <= row.attempt && !Holds(row, h)
    ensures !Holds(row', h)
  {
  }

  /**
   Fencing: a handle whose claim is over, because a later claim exists or because the claim was
   settled, stays out for good. Publishing with it cannot begin, and reporting a failure with it
   answers "already settled" and touches nothing.
   */
  lemma StaleHandlesStayOut(codec: Codec, w: World, events: seq<Event>, h: Handle, failure: Failure, now: Time)
    requires Lawful(codec) && Inv(codec, w) && Run(codec, w, events).Some?
    requires h in w.issued && h.eventId in w.rows
    requires w.rows[h.eventId].attempt > h.attempt || !w.rows[h.eventId].state.Claimed?
    ensures var w' := Run(codec, w, events).value;
            && !LockMatches(w'.rows, h, now)
            && Step(codec, w', Begin(h)).None?
            && 1 <= h.attempt <= MAX_ATTEMPTS
            && FailureUpdate(w'.rows, h, failure, now) == (w'.rows, AlreadySettled)
  {
    var w' := Run(codec, w, events).value;
    assert HandleFits(codec, w.rows, w.sources, h);
    RunIsLater(codec, w, events, h.eventId);
    LostClaim(w.rows[h.eventId], w'.rows[h.eventId], h);
  }

  // ----- Bounded work -----

  /** Twice the claims left, plus one while claimed; nothing once settled. */
  function Measure(row: Row): nat
    requires row.attempt <= MAX_ATTEMPTS
  {
    if IsSettled(row) then 0 else 2 * (MAX_ATTEMPTS - row.attempt) + if row.state.Claimed? then 1 else 0
  }

  /** How many steps of the run change row `id`, once it exists. */
  ghost function Changes(codec: Codec, w: World, events: seq<Event>, id: Text): nat
    decreases |events|
  {
    if |events| == 0 || Step(codec, w, events[0]).None? then 0 else
    var next := Step(codec, w, events[0]).value;
    (if id in w.rows && id in next.rows && next.rows[id] != w.rows[id] then 1 else 0) + Changes(codec, next, events[1..], id)
  }

  /** How many steps of the run claim row `id`. */
  ghost function Claims(codec: Codec, w: World, events: seq<Event>, id: Text): nat
    decreases |events|
  {
    if |events| == 0 || Step(codec, w, events[0]).None? then 0 else
    var next := Step(codec, w, events[0]).value;
    (if id in w.rows && id in next.rows && next.rows[id].attempt != w.rows[id].attempt then 1 else 0) + Claims(codec, next, events[1..], id)
  }

  lemma MovesLowerMeasure(row: Row, row': Row)
    requires Coherent(row) && Coherent(row') && Moves(row, row')
    ensures row' != row ==> Measure(row') < Measure(row)
    ensures row'.attempt == row.attempt || row'.attempt == row.attempt + 1
  {
  }

  ghost predicate MeasureSpent(codec: Codec, w: World, events: seq<Event>, id: Text, w': World) {
    && id in w.rows && id in w'.rows && w.rows[id].attempt <= MAX_ATTEMPTS && w'.rows[id].attempt <= MAX_ATTEMPTS
    && Changes(codec, w, events, id) + Measure(w'.rows[id]) <= Measure(w.rows[id])
    && w.rows[id].attempt + Claims(codec, w, events, id) == w'.rows[id].attempt
  }

  lemma SpendStep(codec: Codec, w: World, events: seq<Event>, id: Text, next: World, w': World)
    requires |events| > 0 && Step(codec, w, events[0]) == Some(next) && id in w.rows
    requires MeasureSpent(codec, next, events[1..], id, w')
    requires w.rows[id].attempt <= MAX_ATTEMPTS
    requires next.rows[id] != w.rows[id] ==> Measure(next.rows[id]) < Measure(w.rows[id])
    requires next.rows[id].attempt == w.rows[id].attempt || next.rows[id].attempt == w.rows[id].attempt + 1
    ensures MeasureSpent(codec, w, events, id, w')
  {
  }

  lemma {:induction false} ChangesSpendMeasure(codec: Codec, w: World, events: seq<Event>, id: Text)
    requires Lawful(codec) && Inv(codec, w) && Run(codec, w, events).Some? && id in w.rows
    ensures MeasureSpent(codec, w, events, id, Run(codec, w, events).value)
    decreases |events|
  {
    if |events| > 0 {
      var next := Step(codec, w, events[0]).value;
      StepKeepsInv(codec, w, events[0], next);
      MovesLowerMeasure(w.rows[id], next.rows[id]);
      ChangesSpendMeasure(codec, next, events[1..], id);
      SpendStep(codec, w, events, id, next, Run(codec, w, events).value);
    }
  }

  lemma ClaimKeepsKeys(codec: Codec, w: World, scope: Scope, options: ClaimOptions, token: Text, claimAt: Time, choice: Option<Text>, w': World)
    requires StepClaim(codec, w, scope, options, token, claimAt, choice) == Some(w')
    ensures w'.rows.Keys == w.rows.Keys && w'.sources == w.sources && w'.flights == w.flights
    ensures w'.sends == w.sends && w'.started == w.started
  {
    ClaimShape(codec, w, scope, options, token, claimAt, choice, w');
  }

  lemma FailKeepsKeys(w: World, h: Handle, failure: Failure, w': World)
    requires StepFail(w, h, failure) == Some(w')
    ensures w'.rows.Keys == w.rows.Keys && w'.sources == w.sources && w'.flights == w.flights
    ensures w'.sends == w.sends && w'.started == w.started
  {
  }

  /** Only an insert adds a row; no step removes one. */
  lemma OnlyInsertAdds(codec: Codec, w: World, e: Event, w': World)
    requires Step(codec, w, e) == Some(w') && !e.Insert?
    ensures w'.rows.Keys == w.rows.Keys && w'.sources == w.sources
  {
    match e
    case ClaimNext(scope, options, token, claimAt, choice) => ClaimKeepsKeys(codec, w, scope, options, token, claimAt, choice, w');
    case Fail(h, failure) => FailKeepsKeys(w, h, failure, w');
    case _ =>
  }

  lemma InsertAddsPending(codec: Codec, w: World, raw: RawEnvelope, relayId: Text, policyId: Text, stored: Json, w': World, id: Text)
    requires StepInsert(codec, w, raw, relayId, policyId, stored) == Some(w')
    ensures id in w.sources && id in w.rows ==> id in w'.sources && w'.sources[id] == w.sources[id]
    ensures id !in w.rows && id in w'.rows ==> w'.rows[id].attempt == 0
    ensures w'.flights == w.flights && w'.sends == w.sends && w'.started == w.started
  {
    if w' != w {
      InsertShape(codec, w, raw, relayId, policyId, stored, w');
    }
  }

  /** Over any run, however many relays take part, an event is claimed at most six times and changes at most twelve times. */
  lemma {:induction false} SixClaimsTwelveChanges(codec: Codec, w: World, events: seq<Event>, id: Text)
    requires Lawful(codec) && Inv(codec, w) && Run(codec, w, events).Some?
    ensures Claims(codec, w, events, id) <= 6 && Changes(codec, w, events, id) <= 12
    decreases |events|
  {
    if id in w.rows {
      ChangesSpendMeasure(codec, w, events, id);
      assert Coherent(w.rows[id]);
    } else if |events| > 0 {
      var next := Step(codec, w, events[0]).value;
      StepKeepsInv(codec, w, events[0], next);
      SixClaimsTwelveChanges(codec, next, events[1..], id);
    }
  }

  // ----- Truthful publication of the inserted envelope -----

  lemma InitialInv(codec: Codec, w: World)
    requires Initial(w)
    ensures Inv(codec, w)
  {
  }

  /** A row is published only with a message id that the publisher returned for that very attempt. */
  lemma PublishedIsAcknowledged(codec: Codec, w: World, events: seq<Event>, id: Text)
    requires Lawful(codec) && Initial(w) && Run(codec, w, events).Some?
    requires id in Run(codec, w, events).value.rows && Run(codec, w, events).value.rows[id].state.Published?
    ensures var w' := Run(codec, w, events).value;
            w'.rows[id].messageId.Some? && Ack(id, w'.rows[id].attempt, w'.rows[id].messageId.value) in w'.acks
  {
    InitialInv(codec, w);
    RunKeepsInv(codec, w, events);
  }

  /** Once the lookup of a publication succeeds it succeeds for good, and a failure reported for it changes nothing. */
  lemma PublishedIsNeverUndone(codec: Codec, w: World, events: seq<Event>, h: Handle, messageId: Text, failure: Failure, now: Time)
    requires Lawful(codec) && Inv(codec, w) && Run(codec, w, events).Some?
    requires IsPublished(w.rows, h, messageId) && 1 <= h.attempt <= MAX_ATTEMPTS
    ensures var w' := Run(codec, w, events).value;
            IsPublished(w'.rows, h, messageId) && FailureUpdate(w'.rows, h, failure, now) == (w'.rows, AlreadySettled)
  {
    SettledIsFinal(codec, w, events, h.eventId);
  }

  lemma StepKeepsSources(codec: Codec, w: World, e: Event, w': World, id: Text)
    requires SourcesHold(codec, w.rows, w.sources) && Step(codec, w, e) == Some(w') && id in w.sources
    ensures id in w'.sources && w'.sources[id] == w.sources[id]
  {
    if e.Insert? {
      InsertAddsPending(codec, w, e.raw, e.relayId, e.policyId, e.stored, w', id);
    } else {
      OnlyInsertAdds(codec, w, e, w');
    }
  }

  lemma {:induction false} RunKeepsSources(codec: Codec, w: World, events: seq<Event>, id: Text)
    requires Lawful(codec) && Inv(codec, w) && Run(codec, w, events).Some? && id in w.sources
    ensures id in Run(codec, w, events).value.sources && Run(codec, w, events).value.sources[id] == w.sources[id]
    decreases |events|
  {
    if |events| > 0 {
      var next := Step(codec, w, events[0]).value;
      StepKeepsInv(codec, w, events[0], next);
      StepKeepsSources(codec, w, events[0], next, id);
      RunKeepsSources(codec, next, events[1..], id);
    }
  }

  /** Whatever is ever sent for an event is the canonical text of the envelope inserted for it. */
  lemma SentIsInserted(codec: Codec, w: World, raw: RawEnvelope, relayId: Text, policyId: Text, stored: Json, w1: World, events: seq<Event>, d: Delivery)
    requires Lawful(codec) && Inv(codec, w)
    requires Step(codec, w, Insert(raw, relayId, policyId, stored)) == Some(w1) && w1 != w
    requires Run(codec, w1, events).Some? && d in Run(codec, w1, events).value.sends
    requires codec.parse(raw).Some? && d.handle.eventId == codec.parse(raw).value.eventId
    ensures codec.text(codec.parse(raw).value) == Some(d.body)
  {
    InsertShape(codec, w, raw, relayId, policyId, stored, w1);
    StepKeepsInv(codec, w, Insert(raw, relayId, policyId, stored), w1);
    RunKeepsSources(codec, w1, events, d.handle.eventId);
    RunKeepsInv(codec, w1, events);
  }

  /** The same for the code's own parser, columns and printer: the body is what serializing the inserter's input gives. */
  lemma SentBodyIsCanonicalEnvelope(catalog: Catalog, w: World, raw: RawEnvelope, relayId: Text, policyId: Text, stored: Json, w1: World, events: seq<Event>, d: Delivery)
    requires ValidCatalog(catalog) && Inv(CodecFor(catalog), w)
    requires Step(CodecFor(catalog), w, Insert(raw, relayId, policyId, stored)) == Some(w1) && w1 != w
    requires Run(CodecFor(catalog), w1, events).Some? && d in Run(CodecFor(catalog), w1, events).value.sends
    requires ParseEnvelope(catalog, raw).Some? && d.handle.eventId == ParseEnvelope(catalog, raw).value.eventId
    ensures SerializeEnvelope(catalog, raw) == Some(d.body)
  {
    var codec := CodecFor(catalog);
    EnvelopeCodecIsLawful(catalog);
    assert codec.parse(raw) == ParseEnvelope(catalog, raw);
    SentIsInserted(codec, w, raw, relayId, policyId, stored, w1, events, d);
    TextOfParsed(catalog, raw, ParseEnvelope(catalog, raw).value);
    assert codec.text(codec.parse(raw).value) == CanonicalText(catalog, codec.parse(raw).value);
  }

  /** So whoever reads the message as JSON and parses it as an envelope gets the envelope that was inserted. */
  lemma ReceiverGetsInsertedEnvelope(catalog: Catalog, w: World, raw: RawEnvelope, relayId: Text, policyId: Text, stored: Json, w1: World, events: seq<Event>, d: Delivery)
    requires ValidCatalog(catalog) && Inv(CodecFor(catalog), w)
    requires Step(CodecFor(catalog), w, Insert(raw, relayId, policyId, stored)) == Some(w1) && w1 != w
    requires Run(CodecFor(catalog), w1, events).Some? && d in Run(CodecFor(catalog), w1, events).value.sends
    requires ParseEnvelope(catalog, raw).Some? && d.handle.eventId == ParseEnvelope(catalog, raw).value.eventId
    ensures var v := JsonReader.Parse(d.body);
            v.Some? && SentText.RawOf(v.value).Some? && ParseEnvelope(catalog, SentText.RawOf(v.value).value) == ParseEnvelope(catalog, raw)
  {
    SentBodyIsCanonicalEnvelope(catalog, w, raw, relayId, policyId, stored, w1, events, d);
    SentText.SentTextParsesBack(catalog, raw, ParseEnvelope(catalog, raw).value);
  }

  // ----- At most six sends -----

  /** The attempt numbers under which event `id` was sent, in order. */
  function AttemptsSent(sends: seq<Delivery>, id: Text): seq<nat> {
    if |sends| == 0 then [] else
    var before := AttemptsSent(sends[..|sends| - 1], id);
    var last := sends[|sends| - 1];
    if last.handle.eventId == id then before + [last.handle.attempt] else before
  }

  lemma AttemptsSentNext(sends: seq<Delivery>, d: Delivery, id: Text)
    ensures AttemptsSent(sends + [d], id) ==
            AttemptsSent(sends, id) + if d.handle.eventId == id then [d.handle.attempt] else []
  {
    assert (sends + [d])[..|sends|] == sends;
  }

  /** `publishNext` calls `publishClaimed` once for the claim it made: no claim is begun twice. */
  ghost predicate Driven(w: World, e: Event) {
    e.Begin? ==> forall h | h in w.started :: h.eventId != e.handle.eventId || h.attempt != e.handle.attempt
  }

  ghost predicate DrivenRun(codec: Codec, w: World, events: seq<Event>)
    decreases |events|
  {
    |events| > 0 && Step(codec, w, events[0]).Some? ==>
      Driven(w, events[0]) && DrivenRun(codec, Step(codec, w, events[0]).value, events[1..])
  }

  ghost predicate Rising(s: seq<nat>, top: int) {
    (forall i, j | 0 <= i < j < |s| :: s[i] < s[j]) && (forall i | 0 <= i < |s| :: 1 <= s[i] <= top)
  }

  lemma {:induction false} RisingIsShort(s: seq<nat>, top: int)
    requires Rising(s, top) && top >= 0
    ensures |s| <= top
  {
    if |s| > 0 {
      RisingIsShort(s[..|s| - 1], s[|s| - 1] - 1);
    }
  }

  /** Sends of an event come in rising claim order, only of claims that were begun, and once for each. */
  ghost predicate SendsRise(w: World, id: Text) {
    && (id in w.flights ==> w.flights[id].handle in w.started)
    && (id !in w.rows ==> AttemptsSent(w.sends, id) == [] && forall h | h in w.started :: h.eventId != id)
    && (id in w.rows ==>
          && Rising(AttemptsSent(w.sends, id), w.rows[id].attempt)
          && (forall h | h in w.started && h.eventId == id :: h.attempt <= w.rows[id].attempt)
          && (id in w.flights && w.flights[id].phase.Locked? ==> Rising(AttemptsSent(w.sends, id), w.rows[id].attempt - 1))
          && ((forall h | h in w.started && h.eventId == id :: h.attempt < w.rows[id].attempt) ==>
                Rising(AttemptsSent(w.sends, id), w.rows[id].attempt - 1)))
  }

  lemma RisingHigher(s: seq<nat>, top: int, top': int)
    requires Rising(s, top) && top <= top'
    ensures Rising(s, top')
  {
  }

  /** Steps that neither begin nor send only let the row move. */
  lemma QuietSendsRise(w: World, w': World, id: Text)
    requires SendsRise(w, id) && RowsMove(w.rows, w'.rows)
    requires w'.sends == w.sends && w'.started == w.started
    requires id !in w.rows && id in w'.rows ==> w'.rows[id].attempt == 0
    requires id in w'.flights ==> id in w.flights && w'.flights[id].handle == w.flights[id].handle
    requires id in w'.flights && w'.flights[id].phase.Locked? ==>
               id in w.rows && id in w'.rows && w'.rows[id].attempt == w.rows[id].attempt && w.flights[id].phase.Locked?
    ensures SendsRise(w', id)
  {
    if id in w.rows && w'.rows[id].attempt > w.rows[id].attempt {
      RisingHigher(AttemptsSent(w.sends, id), w.rows[id].attempt, w'.rows[id].attempt - 1);
    }
  }

  lemma BeginSendsRise(codec: Codec, w: World, h: Handle, w': World, id: Text)
    requires Inv(codec, w) && SendsRise(w, id) && StepBegin(codec, w, h) == Some(w') && Driven(w, Begin(h))
    ensures SendsRise(w', id)
  {
    if h.eventId == id {
      assert h.attempt == w.rows[id].attempt;
      assert forall k | k in w.started && k.eventId == id :: k.attempt < w.rows[id].attempt;
    }
  }

  lemma SendShape(codec: Codec, w: World, locked: Text, reply: Option<Text>, w': World)
    requires StepSend(codec, w, locked, reply) == Some(w')
    ensures locked in w.flights && w.flights[locked].phase.Locked?
    ensures w'.rows == w.rows && w'.started == w.started && w'.flights.Keys == w.flights.Keys
    ensures w'.flights[locked].handle == w.flights[locked].handle && !w'.flights[locked].phase.Locked?
    ensures forall id | id in w.flights && id != locked :: w'.flights[id] == w.flights[id]
    ensures exists body :: w'.sends == w.sends + [Delivery(w.flights[locked].handle, body)]
  {
    var h := w.flights[locked].handle;
    assert w'.sends == w.sends + [Delivery(h, codec.text(h.envelope).value)];
  }

  lemma SendSendsRise(codec: Codec, w: World, locked: Text, reply: Option<Text>, w': World, id: Text)
    requires ValidTable(w.rows) && FlightsHold(w) && SendsRise(w, id) && StepSend(codec, w, locked, reply) == Some(w')
    ensures SendsRise(w', id)
  {
    SendShape(codec, w, locked, reply, w');
    var body :| w'.sends == w.sends + [Delivery(w.flights[locked].handle, body)];
    if id == locked {
      OwnSendRises(w, locked, body, w');
    } else {
      OtherSendKeeps(w, Delivery(w.flights[locked].handle, body), w', id);
    }
  }

  lemma OtherSendKeeps(w: World, d: Delivery, w': World, id: Text)
    requires SendsRise(w, id) && d.handle.eventId != id
    requires w'.rows == w.rows && w'.started == w.started && w'.sends == w.sends + [d]
    requires (id in w.flights <==> id in w'.flights) && (id in w.flights ==> w'.flights[id] == w.flights[id])
    ensures SendsRise(w', id)
  {
    AttemptsSentNext(w.sends, d, id);
  }

  lemma OwnSendRises(w: World, id: Text, body: Text, w': World)
    requires id in w.flights && w.flights[id].phase.Locked? && FlightsHold(w) && SendsRise(w, id)
    requires id in w.rows && w.rows[id].attempt >= 1
    requires w'.rows == w.rows && w'.started == w.started && w'.sends == w.sends + [Delivery(w.flights[id].handle, body)]
    requires id in w'.flights && w'.flights[id].handle == w.flights[id].handle && !w'.flights[id].phase.Locked?
    ensures SendsRise(w', id)
  {
    var h := w.flights[id].handle;
    AttemptsSentNext(w.sends, Delivery(h, body), id);
    assert h.attempt == w.rows[id].attempt && h in w'.started;
    RisingNext(AttemptsSent(w.sends, id), h.attempt);
  }

  lemma RisingNext(s: seq<nat>, next: nat)
    requires Rising(s, next - 1) && next >= 1
    ensures Rising(s + [next], next)
  {
  }

  /** A row whose publishing transaction stays open is changed by no step: the lock holds. */
  lemma LockedRowStays(codec: Codec, w: World, w': World, id: Text)
    requires Inv(codec, w) && Keeps(codec, w, w')
    requires id in w.flights && id in w'.flights && w'.flights[id].handle == w.flights[id].handle
    ensures id in w.rows && id in w'.rows && w'.rows[id] == w.rows[id]
  {
    assert Moves(w.rows[id], w'.rows[id]);
  }

  lemma StepSendsRise(codec: Codec, w: World, e: Event, w': World, id: Text)
    requires Lawful(codec) && Inv(codec, w) && Keeps(codec, w, w')
    requires SendsRise(w, id) && Step(codec, w, e) == Some(w') && Driven(w, e)
    ensures SendsRise(w', id)
  {
    if e.Begin? {
      BeginSendsRise(codec, w, e.handle, w', id);
    } else if e.Send? {
      SendSendsRise(codec, w, e.locked, e.reply, w', id);
    } else {
      FlightsShrink(codec, w, e, w', id);
      if id in w'.flights {
        LockedRowStays(codec, w, w', id);
      }
      QuietSendsRise(w, w', id);
    }
  }

  lemma FlightsShrink(codec: Codec, w: World, e: Event, w': World, id: Text)
    requires Step(codec, w, e) == Some(w') && !e.Begin? && !e.Send?
    ensures w'.sends == w.sends && w'.started == w.started
    ensures id !in w.rows && id in w'.rows ==> w'.rows[id].attempt == 0
    ensures id in w'.flights ==> id in w.flights && w'.flights[id].handle == w.flights[id].handle
    ensures id in w'.flights && w'.flights[id].phase.Locked? ==> w.flights[id].phase.Locked?
  {
    match e
    case Insert(raw, relayId, policyId, stored) => InsertAddsPending(codec, w, raw, relayId, policyId, stored, w', id);
    case ClaimNext(scope, options, token, claimAt, choice) => ClaimKeepsKeys(codec, w, scope, options, token, claimAt, choice, w');
    case Fail(h, failure) => FailKeepsKeys(w, h, failure, w');
    case _ =>
  }

  lemma {:induction false} RunSendsRise(codec: Codec, w: World, events: seq<Event>, id: Text)
    requires Lawful(codec) && Inv(codec, w) && SendsRise(w, id)
    requires Run(codec, w, events).Some? && DrivenRun(codec, w, events)
    ensures SendsRise(Run(codec, w, events).value, id) && Inv(codec, Run(codec, w, events).value)
    decreases |events|
  {
    if |events| > 0 {
      var next := Step(codec, w, events[0]).value;
      StepKeepsInv(codec, w, events[0], next);
      StepSendsRise(codec, w, events[0], next, id);
      RunSendsRise(codec, next, events[1..], id);
    }
  }

  /** Driven by publishNext, from an empty outbox, every event is sent at most six times, in rising claim order. */
  lemma AtMostSixSends(codec: Codec, w: World, events: seq<Event>, id: Text)
    requires Lawful(codec) && Initial(w) && Run(codec, w, events).Some? && DrivenRun(codec, w, events)
    ensures var sent := AttemptsSent(Run(codec, w, events).value.sends, id); Rising(sent, 6) && |sent| <= 6
  {
    InitialInv(codec, w);
    RunSendsRise(codec, w, events, id);
    var w' := Run(codec, w, events).value;
    var sent := AttemptsSent(w'.sends, id);
    if id in w'.rows {
      assert Coherent(w'.rows[id]);
      RisingHigher(sent, w'.rows[id].attempt, 6);
    }
    RisingIsShort(sent, 6);
  }

  // ----- Progress -----

  /** The moment from which an unsettled row can be claimed or swept. */
  function DueAt(row: Row): Time {
    if row.lease.Some? then row.lease.value.expiresAt else row.nextAttemptAt
  }

  /** A claim transaction that does not have to wait for a locked row. */
  ghost predicate SweepIsFree(w: World, scope: Scope) {
    forall id | id in w.flights && id in w.rows :: !SweepDue(w.rows[id], scope, w.clock)
  }

  /**
   Every unsettled, unlocked row is served once the clock is a millisecond past its due time: a
   claim transaction of its scope can run, and it sweeps the row, claims it, or claims a row that
   comes earlier in the queue.
   */
  lemma UnsettledRowsAreServed(codec: Codec, w: World, id: Text, options: ClaimOptions, token: Text) returns (choice: Option<Text>)
    requires Inv(codec, w) && id in w.rows && id !in w.flights && !IsSettled(w.rows[id])
    requires w.clock >= DueAt(w.rows[id]) + MILLISECOND
    requires ValidScope(ScopeOf(w.rows[id])) && ValidOptions(options) && IsClaimToken(token)
    requires SweepIsFree(w, ScopeOf(w.rows[id]))
    ensures var next := Step(codec, w, ClaimNext(ScopeOf(w.rows[id]), options, token, w.clock, choice));
            && next.Some? && id in next.value.rows
            && (w.rows[id].attempt == 6 ==> next.value.rows[id] == SweptRow(w.rows[id], w.clock))
            && (w.rows[id].attempt < 6 ==>
                  && choice.Some? && choice.value in w.rows && choice.value in next.value.rows
                  && next.value.rows[choice.value].attempt == w.rows[choice.value].attempt + 1
                  && (choice.value == id || Precedes(w.rows[choice.value], w.rows[id])))
  {
    var scope := ScopeOf(w.rows[id]);
    var swept, clock := Sweep(w.rows, scope, w.clock), ToMilliseconds(w.clock);
    choice := NextOf(w, swept, scope, clock);
    if choice.None? {
      NoCandidateMeansSwept(w, swept, scope, clock, id);
      IdleClaimRuns(codec, w, scope, options, token);
    } else {
      ClaimRuns(codec, w, scope, options, token, choice.value);
      if w.rows[id].attempt < 6 {
        DueIsCandidate(w, swept, scope, clock, id);
      } else {
        LastAttemptIsSwept(w, swept, scope, clock, id);
      }
    }
  }

  lemma NextOf(w: World, swept: Table, scope: Scope, clock: Time) returns (choice: Option<Text>)
    requires ValidTable(w.rows) && swept == Sweep(w.rows, scope, w.clock)
    ensures choice.None? ==> forall id | id in swept :: !IsCandidate(swept, w.flights.Keys, scope, clock, id)
    ensures choice.Some? ==> IsNext(swept, w.flights.Keys, scope, clock, choice.value)
  {
    var candidates := set other | other in swept && IsCandidate(swept, w.flights.Keys, scope, clock, other);
    if candidates == {} {
      forall id | id in swept
        ensures !IsCandidate(swept, w.flights.Keys, scope, clock, id)
      {
        assert id !in candidates;
      }
      return None;
    }
    var first := NextExists(swept, w.flights.Keys, scope, clock, candidates);
    choice := Some(first);
  }

  lemma IdleClaimRuns(codec: Codec, w: World, scope: Scope, options: ClaimOptions, token: Text)
    requires ValidScope(scope) && ValidOptions(options) && IsClaimToken(token) && SweepIsFree(w, scope)
    requires var swept := Sweep(w.rows, scope, w.clock);
             forall id | id in swept :: !IsCandidate(swept, w.flights.Keys, scope, ToMilliseconds(w.clock), id)
    ensures Step(codec, w, ClaimNext(scope, options, token, w.clock, None)) == Some(w.(rows := Sweep(w.rows, scope, w.clock)))
  {
  }

  lemma ClaimRuns(codec: Codec, w: World, scope: Scope, options: ClaimOptions, token: Text, id: Text)
    requires ValidTable(w.rows) && SourcesHold(codec, w.rows, w.sources)
    requires ValidScope(scope) && ValidOptions(options) && IsClaimToken(token) && SweepIsFree(w, scope)
    requires IsNext(Sweep(w.rows, scope, w.clock), w.flights.Keys, scope, ToMilliseconds(w.clock), id)
    ensures var next := Step(codec, w, ClaimNext(scope, options, token, w.clock, Some(id)));
            && next.Some? && id in w.rows && Sweep(w.rows, scope, w.clock)[id] == w.rows[id]
            && next.value.rows == Sweep(w.rows, scope, w.clock)[id := ClaimedRow(w.rows[id], ToMilliseconds(w.clock), options, token)]
  {
    var swept, clock := Sweep(w.rows, scope, w.clock), ToMilliseconds(w.clock);
    SweepSparesEligible(w.rows, scope, w.clock, clock, id);
    ClaimSucceeds(codec, swept, id, w.sources[id], scope, clock, options, token);
    ClaimStepTaken(codec, w, scope, options, token, id, Claim(codec, swept, id, clock, options, token).value);
  }

  lemma ClaimStepTaken(codec: Codec, w: World, scope: Scope, options: ClaimOptions, token: Text, id: Text, claim: (Table, Handle))
    requires ValidScope(scope) && ValidOptions(options) && IsClaimToken(token) && SweepIsFree(w, scope)
    requires IsNext(Sweep(w.rows, scope, w.clock), w.flights.Keys, scope, ToMilliseconds(w.clock), id)
    requires Claim(codec, Sweep(w.rows, scope, w.clock), id, ToMilliseconds(w.clock), options, token) == Some(claim)
    ensures Step(codec, w, ClaimNext(scope, options, token, w.clock, Some(id))) ==
            Some(w.(rows := claim.0, issued := w.issued + {claim.1}))
  {
  }

  lemma DueIsCandidate(w: World, swept: Table, scope: Scope, clock: Time, id: Text)
    requires ValidTable(w.rows) && id in w.rows && id !in w.flights && !IsSettled(w.rows[id])
    requires scope == ScopeOf(w.rows[id]) && swept == Sweep(w.rows, scope, w.clock) && clock == ToMilliseconds(w.clock)
    requires w.clock >= DueAt(w.rows[id]) + MILLISECOND && w.rows[id].attempt < 6
    ensures IsCandidate(swept, w.flights.Keys, scope, clock, id) && swept[id] == w.rows[id]
  {
  }

  lemma NoCandidateMeansSwept(w: World, swept: Table, scope: Scope, clock: Time, id: Text)
    requires ValidTable(w.rows) && id in w.rows && id !in w.flights && !IsSettled(w.rows[id])
    requires scope == ScopeOf(w.rows[id]) && swept == Sweep(w.rows, scope, w.clock) && clock == ToMilliseconds(w.clock)
    requires w.clock >= DueAt(w.rows[id]) + MILLISECOND
    requires forall other | other in swept :: !IsCandidate(swept, w.flights.Keys, scope, clock, other)
    ensures w.rows[id].attempt == 6 && swept[id] == SweptRow(w.rows[id], w.clock)
  {
    if w.rows[id].attempt < 6 {
      DueIsCandidate(w, swept, scope, clock, id);
    }
  }

  lemma LastAttemptIsSwept(w: World, swept: Table, scope: Scope, clock: Time, id: Text)
    requires ValidTable(w.rows) && id in w.rows && !IsSettled(w.rows[id]) && w.rows[id].attempt == 6
    requires scope == ScopeOf(w.rows[id]) && swept == Sweep(w.rows, scope, w.clock)
    requires w.clock >= DueAt(w.rows[id]) + MILLISECOND
    ensures swept[id] == SweptRow(w.rows[id], w.clock) && !Eligible(swept[id], scope, clock)
  {
  }

  // ----- How long a row can wait -----

  /** A step never moves a row forward in the queue: rows keep their place, go behind the clock, or come in at the clock. */
  ghost predicate Schedules(w: World, w': World) {
    && w.clock <= w'.clock
    && (forall q | q in w.rows :: q in w'.rows && KeepsPlace(w.rows[q], w'.rows[q], w.clock))
    && (forall q | q in w'.rows && q !in w.rows :: w'.rows[q].nextAttemptAt == w.clock)
  }

  ghost predicate KeepsPlace(row: Row, row': Row, now: Time) {
    SameColumns(row, row') && (row'.nextAttemptAt == row.nextAttemptAt || row'.nextAttemptAt > now)
  }

  lemma FailSchedules(w: World, h: Handle, failure: Failure, w': World)
    requires StepFail(w, h, failure) == Some(w')
    ensures Schedules(w, w')
  {
  }

  lemma SweepKeepsPlaces(rows: Table, scope: Scope, now: Time)
    ensures forall q | q in rows :: KeepsPlace(rows[q], Sweep(rows, scope, now)[q], now)
  {
  }

  lemma ClaimSchedules(codec: Codec, w: World, scope: Scope, options: ClaimOptions, token: Text, claimAt: Time, choice: Option<Text>, w': World)
    requires StepClaim(codec, w, scope, options, token, claimAt, choice) == Some(w')
    ensures Schedules(w, w')
  {
    ClaimShape(codec, w, scope, options, token, claimAt, choice, w');
    var swept := Sweep(w.rows, scope, w.clock);
    SweepKeepsPlaces(w.rows, scope, w.clock);
    if choice.Some? {
      ClaimTakes(codec, swept, choice.value, ToMilliseconds(claimAt), options, token);
    }
  }

  lemma InsertSchedules(codec: Codec, w: World, raw: RawEnvelope, relayId: Text, policyId: Text, stored: Json, w': World)
    requires StepInsert(codec, w, raw, relayId, policyId, stored) == Some(w')
    ensures Schedules(w, w')
  {
    if w' != w {
      InsertShape(codec, w, raw, relayId, policyId, stored, w');
    }
  }

  lemma StepSchedules(codec: Codec, w: World, e: Event, w': World)
    requires Step(codec, w, e) == Some(w')
    ensures Schedules(w, w')
  {
    match e
    case Insert(raw, relayId, policyId, stored) => InsertSchedules(codec, w, raw, relayId, policyId, stored, w');
    case ClaimNext(scope, options, token, claimAt, choice) => ClaimSchedules(codec, w, scope, options, token, claimAt, choice, w');
    case Fail(h, failure) => FailSchedules(w, h, failure, w');
    case _ =>
  }

  /** `ahead` lists at least the rows of the same scope that come before row `id`. */
  ghost predicate Listed(rows: Table, id: Text, ahead: seq<Text>)
    requires id in rows
  {
    forall q | q in rows && ScopeOf(rows[q]) == ScopeOf(rows[id]) && Precedes(rows[q], rows[id]) :: q in ahead
  }

  /** Nobody gets ahead of a row whose time has come. */
  lemma NobodyOvertakes(w: World, w': World, id: Text, ahead: seq<Text>)
    requires Schedules(w, w') && id in w.rows && w'.rows[id] == w.rows[id] && w.rows[id].nextAttemptAt < w.clock
    requires Listed(w.rows, id, ahead)
    ensures Listed(w'.rows, id, ahead)
  {
    forall q | q in w'.rows && ScopeOf(w'.rows[q]) == ScopeOf(w'.rows[id]) && Precedes(w'.rows[q], w'.rows[id])
      ensures q in ahead
    {
      assert q in w.rows ==> KeepsPlace(w.rows[q], w'.rows[q], w.clock);
    }
  }

  /** The claims the listed rows have left, six for each at most. */
  function ClaimsLeft(rows: Table, ahead: seq<Text>): (left: nat)
    ensures left <= 6 * |ahead|
  {
    if |ahead| == 0 then 0
    else
      ClaimsLeft(rows, ahead[..|ahead| - 1]) +
      if ahead[|ahead| - 1] in rows && rows[ahead[|ahead| - 1]].attempt <= 6 then 6 - rows[ahead[|ahead| - 1]].attempt else 6
  }

  lemma {:induction false} ClaimsLeftFall(rows: Table, rows': Table, ahead: seq<Text>, claimed: Option<Text>)
    requires RowsMove(rows, rows') && ValidTable(rows) && ValidTable(rows')
    requires claimed.Some? ==>
               claimed.value in rows && rows'[claimed.value].attempt == rows[claimed.value].attempt + 1 && claimed.value in ahead
    ensures ClaimsLeft(rows', ahead) + (if claimed.Some? then 1 else 0) <= ClaimsLeft(rows, ahead)
  {
    if |ahead| > 0 {
      var front, last := ahead[..|ahead| - 1], ahead[|ahead| - 1];
      assert forall q | q in ahead :: q == last || q in front;
      ClaimsLeftFall(rows, rows', front, if claimed.Some? && claimed.value in front then claimed else None);
      assert last in rows ==> Moves(rows[last], rows'[last]);
    }
  }

  /** The claim transaction `e` of its scope finds row `id` waiting: due, unlocked and unsettled. */
  ghost predicate FindsWaiting(w: World, e: Event, id: Text) {
    && e.ClaimNext? && id in w.rows && e.scope == ScopeOf(w.rows[id])
    && IsCandidate(Sweep(w.rows, e.scope, w.clock), w.flights.Keys, e.scope, ToMilliseconds(e.claimAt), id)
  }

  /** How many claim transactions of the run find row `id` waiting. */
  ghost function ClaimsWhileWaiting(codec: Codec, w: World, events: seq<Event>, id: Text): nat
    decreases |events|
  {
    if |events| == 0 || Step(codec, w, events[0]).None? then 0
    else (if FindsWaiting(w, events[0], id) then 1 else 0) + ClaimsWhileWaiting(codec, Step(codec, w, events[0]).value, events[1..], id)
  }

  /** The row a claim transaction picks was not swept by it, and has one claim more afterwards. */
  lemma PickedIsClaimed(codec: Codec, w: World, e: Event, w': World)
    requires ValidTable(w.rows) && SourcesHold(codec, w.rows, w.sources)
    requires e.ClaimNext? && e.choice.Some? && Step(codec, w, e) == Some(w')
    ensures e.choice.value in w.rows && Sweep(w.rows, e.scope, w.clock)[e.choice.value] == w.rows[e.choice.value]
    ensures e.choice.value in w'.rows && w'.rows[e.choice.value].attempt == w.rows[e.choice.value].attempt + 1
  {
    var swept, clock := Sweep(w.rows, e.scope, w.clock), ToMilliseconds(e.claimAt);
    ClaimShape(codec, w, e.scope, e.options, e.token, e.claimAt, e.choice, w');
    SweepSparesEligible(w.rows, e.scope, w.clock, clock, e.choice.value);
    ClaimSucceeds(codec, swept, e.choice.value, w.sources[e.choice.value], e.scope, clock, e.options, e.token);
  }

  /** A claim transaction that finds a row waiting picks it or one that comes before it. */
  lemma PicksWaitingOrAnother(codec: Codec, w: World, e: Event, id: Text)
    requires Step(codec, w, e).Some? && FindsWaiting(w, e, id)
    ensures e.choice.Some? && e.choice.value in w.rows
    ensures var picked := e.choice.value;
            Sweep(w.rows, e.scope, w.clock)[picked] == w.rows[picked] ==>
              picked == id || (ScopeOf(w.rows[picked]) == ScopeOf(w.rows[id]) && Precedes(w.rows[picked], w.rows[id]))
  {
    SweepSparesEligible(w.rows, e.scope, w.clock, ToMilliseconds(e.claimAt), id);
  }

  /** What one step of the run costs the rows ahead. */
  lemma WaitingStepCosts(codec: Codec, w: World, e: Event, next: World, id: Text, ahead: seq<Text>)
    requires Inv(codec, w) && Step(codec, w, e) == Some(next) && Keeps(codec, w, next)
    requires id in w.rows && id in next.rows && next.rows[id] == w.rows[id] && Listed(w.rows, id, ahead)
    ensures ClaimsLeft(next.rows, ahead) + (if FindsWaiting(w, e, id) then 1 else 0) <= ClaimsLeft(w.rows, ahead)
  {
    var claimed: Option<Text> := None;
    if FindsWaiting(w, e, id) {
      PicksWaitingOrAnother(codec, w, e, id);
      PickedIsClaimed(codec, w, e, next);
      claimed := e.choice;
    }
    ClaimsLeftFall(w.rows, next.rows, ahead, claimed);
  }

  lemma UnchangedThroughout(codec: Codec, w: World, events: seq<Event>, next: World, id: Text)
    requires Lawful(codec) && Inv(codec, w) && |events| > 0 && Step(codec, w, events[0]) == Some(next) && Keeps(codec, w, next)
    requires Run(codec, next, events[1..]).Some? && id in w.rows
    requires id in Run(codec, next, events[1..]).value.rows && Run(codec, next, events[1..]).value.rows[id] == w.rows[id]
    ensures id in next.rows && next.rows[id] == w.rows[id]
  {
    assert Moves(w.rows[id], next.rows[id]);
    MovesLowerMeasure(w.rows[id], next.rows[id]);
    ChangesSpendMeasure(codec, next, events[1..], id);
  }

  lemma QueueStands(codec: Codec, w: World, e: Event, next: World, id: Text, ahead: seq<Text>)
    requires Step(codec, w, e) == Some(next) && id in w.rows && id in next.rows && next.rows[id] == w.rows[id]
    requires w.rows[id].nextAttemptAt < w.clock && Listed(w.rows, id, ahead)
    ensures next.rows[id].nextAttemptAt < next.clock && Listed(next.rows, id, ahead)
  {
    StepSchedules(codec, w, e, next);
    NobodyOvertakes(w, next, id, ahead);
  }

  /**
   How long a row can wait. Once its next attempt is due, every claim transaction of its scope that
   finds it waiting serves it or uses up a claim of a row before it, and no row gets before it any
   more. So after as many such transactions as those rows have claims left, six for each at most,
   the next one serves it.
   */
  lemma {:induction false} WaitsBehindSixClaimsEach(codec: Codec, w: World, events: seq<Event>, id: Text, ahead: seq<Text>)
    requires Lawful(codec) && Inv(codec, w) && Run(codec, w, events).Some?
    requires id in w.rows && w.rows[id].nextAttemptAt < w.clock && Listed(w.rows, id, ahead)
    requires id in Run(codec, w, events).value.rows && Run(codec, w, events).value.rows[id] == w.rows[id]
    ensures ClaimsWhileWaiting(codec, w, events, id) <= ClaimsLeft(w.rows, ahead) <= 6 * |ahead|
    decreases |events|
  {
    if |events| > 0 {
      var e, next := events[0], Step(codec, w, events[0]).value;
      StepKeepsInv(codec, w, e, next);
      UnchangedThroughout(codec, w, events, next, id);
      QueueStands(codec, w, e, next, id, ahead);
      WaitingStepCosts(codec, w, e, next, id, ahead);
      WaitsBehindSixClaimsEach(codec, next, events[1..], id, ahead);
    }
  }
}
