/**
 What a lease is good for, in every interleaving: a claim transaction takes the first due row and
 touches nothing else that is not run out, publishing starts and marks only under a live lease, and
 until the lease ends nobody but its holder changes the row.
 */
module OutboxLeases {
  import opened Utf16
  import opened Wrappers
  import opened CanonicalJson
  import opened Envelopes
  import opened EnvelopeCodec
  import opened ErrorCodes
  import opened ProductOutbox
  import opened OutboxProtocol

  lemma ClaimNamesItsRow(codec: Codec, rows: Table, id: Text, clock: Time, options: ClaimOptions, token: Text)
    requires id in rows && rows[id].columns.id == id && Claim(codec, rows, id, clock, options, token).Some?
    ensures Claim(codec, rows, id, clock, options, token).value.1.eventId == id
  {
  }

  lemma StepSweepsAndTakes(codec: Codec, w: World, scope: Scope, options: ClaimOptions, token: Text, claimAt: Time, choice: Option<Text>, w': World)
    returns (claim: Option<Handle>)
    requires ValidTable(w.rows) && StepClaim(codec, w, scope, options, token, claimAt, choice) == Some(w')
    ensures SweepsAndTakes(codec, w.rows, w'.rows, w.flights.Keys, scope, options, token, w.clock, ToMilliseconds(claimAt), claim)
    ensures IdOf(claim) == choice && w.clock <= claimAt == w'.clock
  {
    claim := None;
    if choice.Some? {
      var swept, clock := Sweep(w.rows, scope, w.clock), ToMilliseconds(claimAt);
      ClaimNamesItsRow(codec, swept, choice.value, clock, options, token);
      claim := Some(Claim(codec, swept, choice.value, clock, options, token).value.1);
    }
  }

  /**
   A claim transaction among others takes the first due row nobody locks, gives up the interrupted
   ones, and leaves alone what is settled, another relay's, not yet due, or under a live lease.
   */
  lemma ClaimStepIsRound(codec: Codec, w: World, scope: Scope, options: ClaimOptions, token: Text, claimAt: Time, choice: Option<Text>, w': World)
    requires Inv(codec, w) && Step(codec, w, ClaimNext(scope, options, token, claimAt, choice)) == Some(w')
    ensures w.clock <= claimAt == w'.clock
    ensures IsClaimRound(w.rows, w'.rows, w.flights.Keys, scope, options, token, w.clock, ToMilliseconds(claimAt), choice)
    ensures LeavesOffLimits(w.rows, w'.rows, scope, ToMilliseconds(claimAt))
  {
    var claim := StepSweepsAndTakes(codec, w, scope, options, token, claimAt, choice, w');
    ClaimIsRound(codec, w.rows, w'.rows, w.flights.Keys, scope, options, token, w.clock, ToMilliseconds(claimAt), claim);
    RoundLeavesOffLimits(w.rows, w'.rows, w.flights.Keys, scope, options, token, w.clock, claimAt, choice);
  }

  /** The row is under the handle's own claim, and its lease has not run out. */
  predicate IsLive(rows: Table, h: Handle, now: Time) {
    h.eventId in rows && IsHeldBy(rows[h.eventId], h) && rows[h.eventId].lease.value.expiresAt > now
  }

  /** Publishing begins only under a live lease of the handle's own claim, and so does the mark. */
  lemma OnlyLiveClaimsPublish(codec: Codec, w: World, e: Event, w': World)
    requires Step(codec, w, e) == Some(w')
    ensures e.Begin? ==> e.handle in w.issued && IsLive(w.rows, e.handle, w.clock)
    ensures e.Mark? ==> e.locked in w.flights && IsLive(w.rows, w.flights[e.locked].handle, w.clock)
  {
    if e.Begin? {
      LockedIsLive(w.rows, e.handle, w.clock);
    } else if e.Mark? {
      LockedIsLive(w.rows, w.flights[e.locked].handle, w.clock);
    }
  }

  lemma LockedIsLive(rows: Table, h: Handle, now: Time)
    ensures LockMatches(rows, h, now) <==> IsLive(rows, h, now)
  {
  }

  /** What the holder of a claim does to its row: publish it, or report a failure. */
  ghost predicate IsHoldersOwn(w: World, e: Event, id: Text)
    requires id in w.rows
  {
    (e.Commit? && e.locked == id) || (e.Fail? && e.handle.eventId == id && IsHeldBy(w.rows[id], e.handle))
  }

  ghost predicate HasLiveLease(w: World, id: Text, now: Time) {
    id in w.rows && w.rows[id].state.Claimed? && w.rows[id].lease.Some? && w.rows[id].lease.value.expiresAt > now
  }

  lemma LiveLeaseOneStep(codec: Codec, w: World, e: Event, w': World, id: Text)
    requires Lawful(codec) && Inv(codec, w) && Step(codec, w, e) == Some(w')
    requires HasLiveLease(w, id, w'.clock) && !IsHoldersOwn(w, e, id)
    ensures id in w'.rows && w'.rows[id] == w.rows[id] && w.clock <= w'.clock
  {
    if e.ClaimNext? {
      ClaimLeavesLive(codec, w, e.scope, e.options, e.token, e.claimAt, e.choice, w', id);
    } else if e.Insert? {
      InsertLeavesRows(codec, w, e.raw, e.relayId, e.policyId, e.stored, w');
    } else if e.Fail? {
      OthersReportsLeaveRow(w, e.handle, e.failure, w', id);
    } else {
      OthersLeaveRows(codec, w, e, w', id);
    }
  }

  lemma ClaimLeavesLive(codec: Codec, w: World, scope: Scope, options: ClaimOptions, token: Text, claimAt: Time, choice: Option<Text>, w': World, id: Text)
    requires Inv(codec, w) && Step(codec, w, ClaimNext(scope, options, token, claimAt, choice)) == Some(w')
    requires HasLiveLease(w, id, w'.clock)
    ensures id in w'.rows && w'.rows[id] == w.rows[id] && w.clock <= w'.clock
  {
    ClaimStepIsRound(codec, w, scope, options, token, claimAt, choice, w');
    assert IsOffLimits(w.rows[id], scope, ToMilliseconds(claimAt));
  }

  lemma InsertLeavesRows(codec: Codec, w: World, raw: RawEnvelope, relayId: Text, policyId: Text, stored: Json, w': World)
    requires StepInsert(codec, w, raw, relayId, policyId, stored) == Some(w')
    ensures w'.clock == w.clock && forall id | id in w.rows :: id in w'.rows && w'.rows[id] == w.rows[id]
  {
    if w' != w {
      InsertShape(codec, w, raw, relayId, policyId, stored, w');
    }
  }

  lemma OthersReportsLeaveRow(w: World, h: Handle, failure: Failure, w': World, id: Text)
    requires StepFail(w, h, failure) == Some(w') && id in w.rows && !(h.eventId == id && IsHeldBy(w.rows[id], h))
    ensures w'.clock == w.clock && id in w'.rows && w'.rows[id] == w.rows[id]
  {
    FailureIsReported(w.rows, h, failure, w.clock);
  }

  lemma OthersLeaveRows(codec: Codec, w: World, e: Event, w': World, id: Text)
    requires Step(codec, w, e) == Some(w') && !e.ClaimNext? && !e.Insert? && !e.Fail? && e != Commit(id) && id in w.rows
    ensures w.clock <= w'.clock && id in w'.rows && w'.rows[id] == w.rows[id]
  {
  }

  /** The holder of the claim on row `id` neither publishes it nor reports a failure in this run. */
  ghost predicate HolderIsQuiet(row: Row, events: seq<Event>, id: Text) {
    forall e | e in events :: e != Commit(id) && !(e.Fail? && e.handle.eventId == id && IsHeldBy(row, e.handle))
  }

  /**
   A live lease excludes everybody else: as long as it runs, and its holder does nothing, no run of
   any number of relays and inserting transactions changes the row.
   */
  lemma {:induction false} LiveLeaseExcludesOthers(codec: Codec, w: World, events: seq<Event>, id: Text)
    requires Lawful(codec) && Inv(codec, w) && Run(codec, w, events).Some?
    requires HasLiveLease(w, id, Run(codec, w, events).value.clock) && HolderIsQuiet(w.rows[id], events, id)
    ensures id in Run(codec, w, events).value.rows && Run(codec, w, events).value.rows[id] == w.rows[id]
    decreases |events|
  {
    if |events| > 0 {
      var next := LeaseOutlivesStep(codec, w, events, id);
      LiveLeaseExcludesOthers(codec, next, events[1..], id);
    }
  }

  lemma LeaseOutlivesStep(codec: Codec, w: World, events: seq<Event>, id: Text) returns (next: World)
    requires Lawful(codec) && Inv(codec, w) && |events| > 0 && Run(codec, w, events).Some?
    requires HasLiveLease(w, id, Run(codec, w, events).value.clock) && HolderIsQuiet(w.rows[id], events, id)
    ensures Step(codec, w, events[0]) == Some(next) && Inv(codec, next)
    ensures id in next.rows && next.rows[id] == w.rows[id] && HolderIsQuiet(w.rows[id], events[1..], id)
  {
    next := Step(codec, w, events[0]).value;
    assert events[0] in events && forall e | e in events[1..] :: e in events;
    TimePasses(codec, next, events[1..]);
    LiveLeaseOneStep(codec, w, events[0], next, id);
    StepKeepsInv(codec, w, events[0], next);
  }

  lemma {:induction false} TimePasses(codec: Codec, w: World, events: seq<Event>)
    requires Run(codec, w, events).Some?
    ensures w.clock <= Run(codec, w, events).value.clock
    decreases |events|
  {
    if |events| > 0 {
      TimePasses(codec, Step(codec, w, events[0]).value, events[1..]);
    }
  }
}
