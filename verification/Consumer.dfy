/**
 One message in the Foundation SQS consumer: a visibility extension timer, a deadline timer, an abort
 signal and a chain of awaited calls, in every order their callbacks can run.
 */
module Consumer {
  import opened Wrappers

  const EXTENSION_AT: nat := 15_000
  const DEADLINE: nat := 20_000

  datatype Reason = VisibilityExtensionFailed | DeadlineExceeded | DeleteFailed | TransientFailure | Reported(code: nat)

  datatype Outcome = Deleted(outcome: nat) | Undeleted(reason: Reason)

  /**
   Where `receiveOne` stands. An await of the extension promise remembers whether there was one in
   flight to wait for.
   */
  datatype Phase =
    | Rehydrating
    | Consuming
    | SettlingFailure(failure: Reason, waits: bool)
    | SettlingSuccess(outcome: nat, waits: bool)
    | Deleting(outcome: nat)
    | Returned(result: Outcome)

  datatype Extension = NoExtension | InFlight | Settled

  datatype State = State(
    phase: Phase,
    elapsed: nat,
    terminalReason: Option<Reason>,
    aborted: bool,
    active: bool,
    extension: Extension,
    extensionTimer: bool,
    deadlineTimer: bool,
    writes: nat,                        // how often terminalReason was assigned
    deletes: seq<nat>,                  // the elapsed time at each delete request
    consumed: bool,                     // consume has resolved
    deleteResolved: bool,
    reasonAtReturn: Option<Reason>)

  const START: State := State(Rehydrating, 0, None, false, true, NoExtension, true, true, 0, [], false, false, None)

  datatype Event =
    | Tick(milliseconds: nat)
    | ExtensionTimer
    | DeadlineTimer
    | ExtensionResolves
    | ExtensionRejects
    | RehydrateResolves
    | RehydrateRejects(failure: Reason)
    | ConsumeResolves(outcome: nat)
    | ConsumeRejects(failure: Reason)
    | ExtensionAwaited
    | DeleteResolves
    | DeleteRejects

  // ----- Steps -----

  /** Assign the terminal reason and abort. */
  function Terminate(s: State, reason: Reason): State {
    s.(terminalReason := Some(reason), aborted := true, writes := s.writes + 1)
  }

  /** Assign the terminal reason unless there is one, and abort. */
  function TerminateOnce(s: State, reason: Reason): State {
    if s.terminalReason.None? then Terminate(s, reason) else s.(aborted := true)
  }

  /** Return: the `finally` block clears both timers. */
  function Return(s: State, result: Outcome): State {
    s.(phase := Returned(result), active := false, extensionTimer := false, deadlineTimer := false, reasonAtReturn := s.terminalReason)
  }

  function ReasonOr(s: State, otherwise: Reason): Reason {
    if s.terminalReason.Some? then s.terminalReason.value else otherwise
  }

  function OnExtensionTimer(s: State): State {
    var fired := s.(extensionTimer := false);
    if !s.active || s.terminalReason.Some? then fired
    else if DEADLINE <= s.elapsed then Terminate(fired, DeadlineExceeded)
    else fired.(extension := InFlight)
  }

  /** After a successful consume, with the extension settled. */
  function AfterConsume(s: State, outcome: nat): State {
    if s.terminalReason.Some? then Return(s, Undeleted(s.terminalReason.value))
    else if DEADLINE <= s.elapsed then Return(Terminate(s, DeadlineExceeded), Undeleted(DeadlineExceeded))
    else s.(phase := Deleting(outcome), deletes := s.deletes + [s.elapsed])
  }

  function OnExtensionAwaited(s: State): State
    requires s.phase.SettlingFailure? || s.phase.SettlingSuccess?
  {
    if s.phase.SettlingFailure? then Return(s, Undeleted(ReasonOr(s, s.phase.failure)))
    else AfterConsume(s, s.phase.outcome)
  }

  function OnDeleteResolves(s: State): State
    requires s.phase.Deleting?
  {
    var resolved := s.(deleteResolved := true);
    if s.terminalReason.Some? || s.aborted then Return(resolved, Undeleted(ReasonOr(s, DeadlineExceeded)))
    else Return(resolved, Deleted(s.phase.outcome))
  }

  /** Callbacks that can run now. Timers do not run early. */
  predicate Enabled(s: State, e: Event) {
    match e
    case Tick(_) => true
    case ExtensionTimer => s.extensionTimer && EXTENSION_AT <= s.elapsed
    case DeadlineTimer => s.deadlineTimer && DEADLINE <= s.elapsed
    case ExtensionResolves => s.extension.InFlight?
    case ExtensionRejects => s.extension.InFlight?
    case RehydrateResolves => s.phase.Rehydrating?
    case RehydrateRejects(failure) => s.phase.Rehydrating? && IsSanitized(failure)
    case ConsumeResolves(_) => s.phase.Consuming?
    case ConsumeRejects(failure) => s.phase.Consuming? && IsSanitized(failure)
    case ExtensionAwaited =>
      (s.phase.SettlingFailure? || s.phase.SettlingSuccess?) && (s.phase.waits ==> !s.extension.InFlight?)
    case DeleteResolves => s.phase.Deleting?
    case DeleteRejects => s.phase.Deleting?
  }

  /** What `sanitizeReason` can answer. */
  predicate IsSanitized(r: Reason) {
    r.TransientFailure? || r.Reported?
  }

  function Step(s: State, e: Event): State
    requires Enabled(s, e)
  {
    match e
    case Tick(milliseconds) => s.(elapsed := s.elapsed + milliseconds)
    case ExtensionTimer => OnExtensionTimer(s)
    case DeadlineTimer => TerminateOnce(s.(deadlineTimer := false), DeadlineExceeded)
    case ExtensionResolves => s.(extension := Settled)
    case ExtensionRejects => TerminateOnce(s.(extension := Settled), VisibilityExtensionFailed)
    case RehydrateResolves =>
      if s.terminalReason.Some? then Return(s, Undeleted(s.terminalReason.value)) else s.(phase := Consuming)
    case RehydrateRejects(failure) => s.(phase := SettlingFailure(failure, s.extension.InFlight?))
    case ConsumeResolves(outcome) => s.(phase := SettlingSuccess(outcome, s.extension.InFlight?), consumed := true)
    case ConsumeRejects(failure) => s.(phase := SettlingFailure(failure, s.extension.InFlight?))
    case ExtensionAwaited => OnExtensionAwaited(s)
    case DeleteResolves => OnDeleteResolves(s)
    case DeleteRejects => Return(s, Undeleted(ReasonOr(s, DeleteFailed)))
  }

  predicate CanRun(s: State, events: seq<Event>)
    decreases |events|
  {
    |events| > 0 ==> Enabled(s, events[0]) && CanRun(Step(s, events[0]), events[1..])
  }

  function Run(s: State, events: seq<Event>): State
    requires CanRun(s, events)
    decreases |events|
  {
    if |events| == 0 then s else Run(Step(s, events[0]), events[1..])
  }

  // ----- The invariant -----

  ghost predicate Inv(s: State) {
    && s.writes == (if s.terminalReason.Some? then 1 else 0)
    && (s.aborted <==> s.terminalReason.Some?)
    && (s.active <==> !s.phase.Returned?)
    && (!s.active ==> !s.extensionTimer && !s.deadlineTimer)
    && (s.extensionTimer ==> s.extension.NoExtension?)
    && (s.phase.SettlingSuccess? || s.phase.Deleting? || s.deletes != [] ==> s.consumed)
    && (s.deleteResolved ==> s.phase.Returned? && s.deletes != [])
    && |s.deletes| <= 1
    && (forall i | 0 <= i < |s.deletes| :: s.deletes[i] < DEADLINE)
    && (s.phase.Rehydrating? || s.phase.Consuming? || s.phase.SettlingSuccess? || s.phase.SettlingFailure? ==> s.deletes == [])
    && (s.phase.Deleting? ==> s.deletes != [])
    && (s.phase.SettlingFailure? ==> IsSanitized(s.phase.failure))
    && (s.phase.Returned? ==> ReturnedFits(s))
  }

  ghost predicate ReturnedFits(s: State)
    requires s.phase.Returned?
  {
    var result := s.phase.result;
    && (s.reasonAtReturn.Some? ==> result == Undeleted(s.reasonAtReturn.value) && s.terminalReason == s.reasonAtReturn)
    && (result.Deleted? ==> s.deleteResolved)
    && (s.reasonAtReturn.None? ==> result.Deleted? || IsSanitized(result.reason) || result.reason.DeleteFailed?)
    && (s.terminalReason != s.reasonAtReturn ==> s.terminalReason == Some(VisibilityExtensionFailed) && !s.extension.InFlight?)
  }

  // ----- The run as an object with callbacks -----

  class ReceiveOne {
    var state: State

    ghost predicate Valid()
      reads this
    {
      Inv(state)
    }

    /** The terminal reason is written only where there is none. */
    twostate predicate WritesOnce()
      reads this
    {
      old(state.terminalReason).Some? ==> state.terminalReason == old(state.terminalReason) && state.writes == old(state.writes)
    }

    /** Nothing is written, returned or requested. */
    twostate predicate OnlyWaits()
      reads this
    {
      && state.terminalReason == old(state.terminalReason) && state.writes == old(state.writes) && state.aborted == old(state.aborted)
      && state.deletes == old(state.deletes) && state.phase.Returned? == old(state.phase.Returned?)
    }

    constructor ()
      ensures Valid() && state == START
    {
      state := START;
    }

    method Wait(milliseconds: nat)
      requires Valid()
      modifies this
      ensures Valid() && state == Step(old(state), Tick(milliseconds)) && OnlyWaits()
    {
      state := state.(elapsed := state.elapsed + milliseconds);
    }

    /**
     The extension timer's callback: it asks for an extension while there is time left, ends the run
     when there is none, and does nothing once the run has a reason or has returned.
     */
    method FireExtension()
      requires Valid() && Enabled(state, ExtensionTimer)
      modifies this
      ensures Valid() && state == Step(old(state), ExtensionTimer) && WritesOnce()
      ensures !state.extensionTimer && state.phase == old(state).phase && state.deletes == old(state).deletes
      ensures state.extension.InFlight? <==>
                old(state).extension.InFlight? || (old(state).active && old(state).terminalReason.None? && old(state).elapsed < DEADLINE)
      ensures old(state).terminalReason.None? ==>
                state.terminalReason == if old(state).active && DEADLINE <= old(state).elapsed then Some(DeadlineExceeded) else None
    {
      state := state.(extensionTimer := false);
      if !state.active || state.terminalReason.Some? {
        return;
      }
      if DEADLINE <= state.elapsed {
        state := state.(terminalReason := Some(DeadlineExceeded), writes := state.writes + 1);
        state := state.(aborted := true);
        return;
      }
      state := state.(extension := InFlight);
    }

    /** The deadline timer's callback: afterwards there is a reason, the earlier one if there was one, and the signal is aborted. */
    method FireDeadline()
      requires Valid() && Enabled(state, DeadlineTimer)
      modifies this
      ensures Valid() && state == Step(old(state), DeadlineTimer) && WritesOnce()
      ensures state.terminalReason == Some(ReasonOr(old(state), DeadlineExceeded)) && state.aborted && !state.deadlineTimer
      ensures state.phase == old(state).phase && state.extension == old(state).extension && state.deletes == old(state).deletes
    {
      state := state.(deadlineTimer := false);
      if state.terminalReason.None? {
        state := state.(terminalReason := Some(DeadlineExceeded), writes := state.writes + 1);
      }
      state := state.(aborted := true);
    }

    method ResolveExtension()
      requires Valid() && Enabled(state, ExtensionResolves)
      modifies this
      ensures Valid() && state == Step(old(state), ExtensionResolves) && OnlyWaits()
      ensures state.extension.Settled?
    {
      state := state.(extension := Settled);
    }

    /** The extension promise rejects: as the deadline, with its own reason; it may do so after the return. */
    method RejectExtension()
      requires Valid() && Enabled(state, ExtensionRejects)
      modifies this
      ensures Valid() && state == Step(old(state), ExtensionRejects) && WritesOnce()
      ensures state.terminalReason == Some(ReasonOr(old(state), VisibilityExtensionFailed)) && state.aborted && state.extension.Settled?
      ensures state.phase == old(state).phase && state.deletes == old(state).deletes
    {
      state := state.(extension := Settled);
      if state.terminalReason.None? {
        state := state.(terminalReason := Some(VisibilityExtensionFailed), writes := state.writes + 1);
      }
      state := state.(aborted := true);
    }

    /** The job is rehydrated: it is consumed unless the run already has a reason. */
    method ResolveRehydrate()
      requires Valid() && Enabled(state, RehydrateResolves)
      modifies this
      ensures Valid() && state == Step(old(state), RehydrateResolves) && WritesOnce()
      ensures old(state).terminalReason.None? ==> state.phase.Consuming?
      ensures old(state).terminalReason.Some? ==> state.phase == Returned(Undeleted(old(state).terminalReason.value))
    {
      if state.terminalReason.Some? {
        Finish(Undeleted(state.terminalReason.value));
      } else {
        state := state.(phase := Consuming);
      }
    }

    /** Rehydrating or consuming fails: the extension is awaited before the failure is reported. */
    method Reject(failure: Reason)
      requires Valid() && (state.phase.Rehydrating? || state.phase.Consuming?) && IsSanitized(failure)
      modifies this
      ensures Valid() && OnlyWaits()
      ensures state == Step(old(state), if old(state).phase.Rehydrating? then RehydrateRejects(failure) else ConsumeRejects(failure))
      ensures state.phase == SettlingFailure(failure, old(state).extension.InFlight?)
    {
      state := state.(phase := SettlingFailure(failure, state.extension.InFlight?));
    }

    method ResolveConsume(outcome: nat)
      requires Valid() && Enabled(state, ConsumeResolves(outcome))
      modifies this
      ensures Valid() && state == Step(old(state), ConsumeResolves(outcome)) && OnlyWaits()
      ensures state.consumed && state.phase == SettlingSuccess(outcome, old(state).extension.InFlight?)
    {
      state := state.(phase := SettlingSuccess(outcome, state.extension.InFlight?), consumed := true);
    }

    /**
     `receiveOne` goes on after awaiting the extension promise: a delete is requested exactly after a
     successful consume, with no reason and time left; otherwise the run returns, with its reason,
     the failure, or the deadline.
     */
    method ResumeAfterExtension()
      requires Valid() && Enabled(state, ExtensionAwaited)
      modifies this
      ensures Valid() && state == Step(old(state), ExtensionAwaited) && WritesOnce()
      ensures state.phase.Deleting? <==>
                old(state).phase.SettlingSuccess? && old(state).terminalReason.None? && old(state).elapsed < DEADLINE
      ensures state.deletes == if state.phase.Deleting? then [old(state).elapsed] else []
      ensures state.phase.Deleting? ==> state.consumed && state.phase.outcome == old(state).phase.outcome && state.terminalReason.None?
      ensures !state.phase.Deleting? ==>
                state.phase == Returned(Undeleted(ReasonOr(old(state),
                  if old(state).phase.SettlingFailure? then old(state).phase.failure else DeadlineExceeded)))
    {
      if state.phase.SettlingFailure? {
        Finish(Undeleted(ReasonOr(state, state.phase.failure)));
        return;
      }
      if state.terminalReason.Some? {
        Finish(Undeleted(state.terminalReason.value));
        return;
      }
      var remaining := if DEADLINE >= state.elapsed then DEADLINE - state.elapsed else 0;
      if remaining <= 0 {
        state := state.(terminalReason := Some(DeadlineExceeded), writes := state.writes + 1);
        state := state.(aborted := true);
        Finish(Undeleted(DeadlineExceeded));
        return;
      }
      state := state.(phase := Deleting(state.phase.outcome), deletes := state.deletes + [state.elapsed]);
    }

    /** The delete request resolves: "deleted" exactly if no reason was set meanwhile, else that reason. */
    method ResolveDelete()
      requires Valid() && Enabled(state, DeleteResolves)
      modifies this
      ensures Valid() && state == Step(old(state), DeleteResolves) && WritesOnce()
      ensures state.phase == Returned(if old(state).terminalReason.None? then Deleted(old(state).phase.outcome)
                                      else Undeleted(old(state).terminalReason.value))
      ensures state.terminalReason == old(state).terminalReason && !state.active && !state.extensionTimer && !state.deadlineTimer
    {
      state := state.(deleteResolved := true);
      if state.terminalReason.Some? || state.aborted {
        Finish(Undeleted(ReasonOr(state, DeadlineExceeded)));
      } else {
        Finish(Deleted(state.phase.outcome));
      }
    }

    method RejectDelete()
      requires Valid() && Enabled(state, DeleteRejects)
      modifies this
      ensures Valid() && state == Step(old(state), DeleteRejects) && WritesOnce()
      ensures state.phase == Returned(Undeleted(ReasonOr(old(state), DeleteFailed)))
    {
      Finish(Undeleted(ReasonOr(state, DeleteFailed)));
    }

    /** The `finally` block. */
    method Finish(result: Outcome)
      modifies this
      ensures state == Return(old(state), result)
    {
      state := state.(phase := Returned(result), reasonAtReturn := state.terminalReason);
      state := state.(active := false, extensionTimer := false, deadlineTimer := false);
    }

    method Handle(e: Event)
      requires Valid() && Enabled(state, e)
      modifies this
      ensures Valid() && state == Step(old(state), e)
    {
      match e
      case Tick(milliseconds) => Wait(milliseconds);
      case ExtensionTimer => FireExtension();
      case DeadlineTimer => FireDeadline();
      case ExtensionResolves => ResolveExtension();
      case ExtensionRejects => RejectExtension();
      case RehydrateResolves => ResolveRehydrate();
      case RehydrateRejects(failure) => Reject(failure);
      case ConsumeResolves(outcome) => ResolveConsume(outcome);
      case ConsumeRejects(failure) => Reject(failure);
      case ExtensionAwaited => ResumeAfterExtension();
      case DeleteResolves => ResolveDelete();
      case DeleteRejects => RejectDelete();
    }

    /** Any order of callbacks, from a fresh message: what the lemmas below say of runs holds of the object. */
    method HandleAll(events: seq<Event>)
      requires state == START && CanRun(START, events)
      modifies this
      ensures Valid() && state == Run(START, events)
      ensures state.writes <= 1 && |state.deletes| <= 1
      ensures state.phase.Returned? && state.reasonAtReturn.Some? ==> state.phase.result == Undeleted(state.reasonAtReturn.value)
      ensures state.phase.Returned? && state.phase.result.Deleted? ==> state.deleteResolved && state.reasonAtReturn.None?
    {
      for n := 0 to |events|
        invariant Valid()
        invariant CanRun(state, events[n..]) && Run(state, events[n..]) == Run(START, events)
      {
        assert events[n..][0] == events[n] && events[n..][1..] == events[n + 1..];
        Handle(events[n]);
      }
      assert events[|events|..] == [];
    }
  }

  // ----- Every callback keeps the invariant -----

  lemma StepKeepsInv(s: State, e: Event)
    requires Inv(s) && Enabled(s, e)
    ensures Inv(Step(s, e))
    ensures s.terminalReason.Some? ==> Step(s, e).terminalReason == s.terminalReason
    ensures s.phase.Returned? ==> Step(s, e).phase == s.phase && Step(s, e).reasonAtReturn == s.reasonAtReturn
  {
  }

  lemma {:induction false} RunKeepsInv(s: State, events: seq<Event>)
    requires Inv(s) && CanRun(s, events)
    ensures Inv(Run(s, events))
    ensures s.terminalReason.Some? ==> Run(s, events).terminalReason == s.terminalReason
    ensures s.phase.Returned? ==> Run(s, events).phase == s.phase && Run(s, events).reasonAtReturn == s.reasonAtReturn
    decreases |events|
  {
    if |events| > 0 {
      StepKeepsInv(s, events[0]);
      RunKeepsInv(Step(s, events[0]), events[1..]);
    }
  }

  // ----- Main results -----

  /** For every order of callbacks the terminal reason is assigned at most once, and never without the abort signal. */
  lemma OneTerminalReason(events: seq<Event>)
    requires CanRun(START, events)
    ensures Run(START, events).writes <= 1
    ensures Run(START, events).aborted <==> Run(START, events).terminalReason.Some?
  {
    RunKeepsInv(START, events);
  }

  /** The reason reported is the terminal reason, when there is one at the return; it stays the one forever. */
  lemma ReportedReasonIsTerminal(events: seq<Event>)
    requires CanRun(START, events) && Run(START, events).phase.Returned? && Run(START, events).reasonAtReturn.Some?
    ensures var s := Run(START, events);
            s.phase.result == Undeleted(s.reasonAtReturn.value) && s.terminalReason == s.reasonAtReturn
  {
    RunKeepsInv(START, events);
  }

  /** A delete is requested at most once, after consume resolved, before the deadline and with no terminal reason. */
  lemma DeleteOnlyAfterConsume(events: seq<Event>, e: Event)
    requires CanRun(START, events) && Enabled(Run(START, events), e)
    ensures var s, s' := Run(START, events), Step(Run(START, events), e);
            && |s'.deletes| <= 1
            && (s'.deletes != s.deletes ==>
                  s.consumed && s.elapsed < DEADLINE && s.terminalReason.None? && s'.deletes == [s.elapsed])
  {
    RunKeepsInv(START, events);
    StepKeepsInv(Run(START, events), e);
  }

  /** "Deleted" means that the one delete request resolved and that no terminal reason was set before the return. */
  lemma DeletedMeansDeleted(events: seq<Event>)
    requires CanRun(START, events) && Run(START, events).phase.Returned? && Run(START, events).phase.result.Deleted?
    ensures var s := Run(START, events); s.deleteResolved && |s.deletes| == 1 && s.reasonAtReturn.None?
  {
    RunKeepsInv(START, events);
  }

  predicate IsSettling(p: Phase) {
    p.SettlingFailure? || p.SettlingSuccess?
  }

  lemma {:induction false} SettledStays(s: State, events: seq<Event>)
    requires Inv(s) && CanRun(s, events) && s.extension.Settled?
    ensures Run(s, events).extension.Settled?
    decreases |events|
  {
    if |events| > 0 {
      StepKeepsInv(s, events[0]);
      SettledStays(Step(s, events[0]), events[1..]);
    }
  }

  lemma {:induction false} WaitsUntilSettled(s: State, events: seq<Event>)
    requires Inv(s) && CanRun(s, events)
    requires IsSettling(s.phase) && s.phase.waits && s.extension.InFlight?
    ensures var t := Run(s, events); t.extension.Settled? || (t.phase == s.phase && t.deletes == [] && t.extension.InFlight?)
    decreases |events|
  {
    if |events| > 0 {
      var next := Step(s, events[0]);
      StepKeepsInv(s, events[0]);
      if next.extension.Settled? {
        SettledStays(next, events[1..]);
      } else {
        WaitsUntilSettled(next, events[1..]);
      }
    }
  }

  /**
   An extension in flight when rehydrating or consuming ends is waited for: in whatever order the
   callbacks run from there, nothing is returned or deleted before it has settled.
   */
  lemma ExtensionIsAwaited(events: seq<Event>, e: Event, later: seq<Event>)
    requires CanRun(START, events) && Enabled(Run(START, events), e) && Run(START, events).extension.InFlight?
    requires e.RehydrateRejects? || e.ConsumeResolves? || e.ConsumeRejects?
    requires CanRun(Step(Run(START, events), e), later)
    ensures var t := Run(Step(Run(START, events), e), later);
            t.phase.Returned? || t.deletes != [] ==> t.extension.Settled?
  {
    RunKeepsInv(START, events);
    StepKeepsInv(Run(START, events), e);
    WaitsUntilSettled(Step(Run(START, events), e), later);
  }

  /**
   After "deleted" was returned the variable may still be assigned: exactly when a visibility
   extension is in flight at that moment.
   */
  lemma LateReasonExactly(s: State)
    requires Inv(s) && s.phase.Returned? && s.phase.result.Deleted? && s.terminalReason.None?
    ensures (exists events :: CanRun(s, events) && Run(s, events).terminalReason.Some?) <==> s.extension.InFlight?
  {
    if s.extension.InFlight? {
      RunPrepends(s, ExtensionRejects, []);
      assert Run(s, [ExtensionRejects] + []).terminalReason.Some?;
    } else {
      forall events | CanRun(s, events)
        ensures Run(s, events).terminalReason.None?
      {
        NothingLeftToFail(s, events);
      }
    }
  }

  lemma {:induction false} NothingLeftToFail(s: State, events: seq<Event>)
    requires Inv(s) && s.phase.Returned? && s.terminalReason.None? && !s.extension.InFlight? && CanRun(s, events)
    ensures Run(s, events).terminalReason.None?
    decreases |events|
  {
    if |events| > 0 {
      StepKeepsInv(s, events[0]);
      NothingLeftToFail(Step(s, events[0]), events[1..]);
    }
  }

  lemma RunPrepends(s: State, e: Event, events: seq<Event>)
    requires Enabled(s, e) && CanRun(Step(s, e), events)
    ensures CanRun(s, [e] + events) && Run(s, [e] + events) == Run(Step(s, e), events)
  {
    assert ([e] + events)[1..] == events;
  }

  lemma {:induction false} RunAppends(s: State, before: seq<Event>, after: seq<Event>)
    requires CanRun(s, before) && CanRun(Run(s, before), after)
    ensures CanRun(s, before + after) && Run(s, before + after) == Run(Run(s, before), after)
    decreases |before|
  {
    if |before| == 0 {
      assert before + after == after;
    } else {
      assert (before + after)[1..] == before[1..] + after;
      RunAppends(Step(s, before[0]), before[1..], after);
    }
  }

  /** The extension is sent while the delete is under way. */
  lemma DeletedWithExtensionInFlight() returns (events: seq<Event>)
    ensures CanRun(START, events) && Run(START, events).phase == Returned(Deleted(1)) && Run(START, events).extension.InFlight?
  {
    var s1 := Step(START, RehydrateResolves);
    var s2 := Step(s1, ConsumeResolves(1));
    var s3 := Step(s2, ExtensionAwaited);
    var s4 := Step(s3, Tick(EXTENSION_AT));
    var s5 := Step(s4, ExtensionTimer);
    RunPrepends(s5, DeleteResolves, []);
    RunPrepends(s4, ExtensionTimer, [DeleteResolves] + []);
    RunPrepends(s3, Tick(EXTENSION_AT), [ExtensionTimer] + ([DeleteResolves] + []));
    RunPrepends(s2, ExtensionAwaited, [Tick(EXTENSION_AT)] + ([ExtensionTimer] + ([DeleteResolves] + [])));
    var tail := [ExtensionAwaited] + ([Tick(EXTENSION_AT)] + ([ExtensionTimer] + ([DeleteResolves] + [])));
    RunPrepends(s1, ConsumeResolves(1), tail);
    RunPrepends(START, RehydrateResolves, [ConsumeResolves(1)] + tail);
    events := [RehydrateResolves] + ([ConsumeResolves(1)] + tail);
  }

  /** One run from the start that returns "deleted" and assigns the terminal reason afterwards. */
  lemma ReasonSetAfterDeleted()
    ensures exists events, later ::
              && CanRun(START, events + later)
              && CanRun(START, events) && Run(START, events).phase == Returned(Deleted(1)) && Run(START, events).terminalReason.None?
              && Run(START, events + later).phase == Returned(Deleted(1))
              && Run(START, events + later).terminalReason == Some(VisibilityExtensionFailed)
  {
    var events := DeletedWithExtensionInFlight();
    var s := Run(START, events);
    RunKeepsInv(START, events);
    RunPrepends(s, ExtensionRejects, []);
    RunAppends(START, events, [ExtensionRejects] + []);
    assert Run(s, [ExtensionRejects] + []) == Step(s, ExtensionRejects);
  }
}
