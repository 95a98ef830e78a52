/**
 Source corrections and tombstones under concurrency. A correction locks the source it supersedes
 with one statement, whose search for an existing successor may predate the lock, and repeats the
 search with a second statement before it inserts. Every interleaving of such transactions is covered.
 */
module SourceCorrection {
  import opened Wrappers
  import opened SpaceGrants
  import opened AuthorityRules

  type Hash = nat

  /** A source row; `born` counts the sources committed before it. */
  datatype Source = Source(
    space: Id,
    supersedes: Option<Id>,
    accessClass: AccessClass,
    version: nat,
    deleted: bool,
    text: Option<Hash>,
    contentHash: Option<Hash>,
    retainHash: bool,
    hashRetained: Option<bool>,
    born: nat)

  type Sources = map<Id, Source>

  // ----- Access classes -----

  /** `maxAccessClass` over at least one value, folding from the left. */
  function MaxAccessClass(values: seq<AccessClass>): (m: AccessClass)
    requires values != []
    ensures m in values && forall v | v in values :: Rank(v) <= Rank(m)
  {
    if |values| == 1 then values[0]
    else
      var m := MaxAccessClass(values[..|values| - 1]);
      var last := values[|values| - 1];
      assert forall v | v in values :: v == last || v in values[..|values| - 1];
      if Rank(last) > Rank(m) then last else m
  }

  /** `deriveSourceAccessClass` */
  function DeriveAccessClass(space: AccessClass, requested: Option<AccessClass>, predecessor: Option<AccessClass>): (c: AccessClass)
    ensures Rank(space) <= Rank(c)
    ensures requested.Some? ==> Rank(requested.value) <= Rank(c)
    ensures predecessor.Some? ==> Rank(predecessor.value) <= Rank(c)
    ensures c == space || requested == Some(c) || predecessor == Some(c)
  {
    var values := [space, if requested.Some? then requested.value else space, if predecessor.Some? then predecessor.value else space];
    assert values[0] in values && values[1] in values && values[2] in values;
    MaxAccessClass(values)
  }

  // ----- Statements -----

  predicate HasSuccessor(sources: Sources, id: Id) {
    exists s | s in sources :: sources[s].supersedes == Some(id)
  }

  /** The condition both statements of `lockCurrentSourceForCorrection` test. */
  predicate IsCurrent(sources: Sources, space: Id, id: Id) {
    id in sources && sources[id].space == space && !sources[id].deleted && !HasSuccessor(sources, id)
  }

  /** The row a tombstone leaves: no text, and no hash unless it is to be retained. */
  function TombstonedRow(row: Source): Source {
    row.(text := None, contentHash := if row.retainHash then row.contentHash else None, deleted := true,
         hashRetained := Some(row.retainHash), version := row.version + 1)
  }

  // ----- Transactions -----

  datatype Phase =
    | Searching                 // the locking statement has searched and waits for the row lock
    | Locked                    // the row is locked
    | Rechecked                 // the second statement found the source still current
    | Correcting(id: Id, row: Source)  // the successor is inserted, not committed
    | Erasing                   // a tombstone holds the row and has checked its version

  datatype Flight = Flight(target: Id, space: Id, phase: Phase)

  datatype World = World(sources: Sources, flights: map<nat, Flight>)

  datatype Event =
    | Capture(id: Id, row: Source)
    | Search(flight: nat, target: Id, space: Id)
    | Lock(flight: nat)
    | Recheck(flight: nat)
    | Insert(flight: nat, id: Id, spaceClass: AccessClass, requested: Option<AccessClass>, text: Hash, retainHash: bool)
    | LockForTombstone(flight: nat, target: Id, expectedVersion: nat)
    | Commit(flight: nat)
    | Abort(flight: nat)

  predicate HoldsLock(flight: Flight) {
    !flight.phase.Searching?
  }

  predicate IsLocked(w: World, id: Id) {
    exists f | f in w.flights :: HoldsLock(w.flights[f]) && w.flights[f].target == id
  }

  /**
   Which protections a run has: the second statement of the lock method, and the unique constraint
   on the superseded source. The code has both.
   */
  datatype Guard = Guard(recheck: bool, constraint: bool)

  /** What the unique constraint looks for: a successor, committed or in an open transaction. */
  predicate Superseded(w: World, id: Id) {
    HasSuccessor(w.sources, id) || exists f | f in w.flights :: Supersedes(w.flights[f], id)
  }

  predicate Supersedes(flight: Flight, id: Id) {
    flight.phase.Correcting? && flight.phase.row.supersedes == Some(id)
  }

  predicate IdTaken(w: World, id: Id) {
    id in w.sources || exists f | f in w.flights :: w.flights[f].phase.Correcting? && w.flights[f].phase.id == id
  }

  function With(w: World, f: nat, flight: Flight): World {
    w.(flights := w.flights[f := flight])
  }

  function StepCapture(w: World, id: Id, row: Source): Option<World> {
    if IdTaken(w, id) || row.supersedes.Some? || row.deleted then None
    else Some(w.(sources := w.sources[id := row.(born := |w.sources|)]))
  }

  /**
   The lock is granted when nobody else holds it. If the row changed while waiting, its own columns
   are tested again; the search for a successor is not repeated.
   */
  function StepLock(w: World, f: nat): Option<World> {
    if f !in w.flights || !w.flights[f].phase.Searching? || IsLocked(w, w.flights[f].target) then None
    else if w.flights[f].target !in w.sources || w.sources[w.flights[f].target].deleted then None
    else Some(With(w, f, w.flights[f].(phase := Locked)))
  }

  function StepRecheck(w: World, f: nat): Option<World> {
    if f !in w.flights || !w.flights[f].phase.Locked? || !IsCurrent(w.sources, w.flights[f].space, w.flights[f].target) then None
    else Some(With(w, f, w.flights[f].(phase := Rechecked)))
  }

  /** `persistSource` for a correction, as far as the guards let it. */
  function StepInsert(g: Guard, w: World, f: nat, id: Id, spaceClass: AccessClass, requested: Option<AccessClass>, text: Hash, retainHash: bool): Option<World> {
    if f !in w.flights || IdTaken(w, id) then None
    else if !(w.flights[f].phase.Rechecked? || (!g.recheck && w.flights[f].phase.Locked?)) || w.flights[f].target !in w.sources then None
    else if g.constraint && Superseded(w, w.flights[f].target) then None
    else
      var flight := w.flights[f];
      var accessClass := DeriveAccessClass(spaceClass, requested, Some(w.sources[flight.target].accessClass));
      var row := Source(flight.space, Some(flight.target), accessClass, 1, false, Some(text), Some(text), retainHash, None, 0);
      Some(With(w, f, flight.(phase := Correcting(id, row))))
  }

  function StepLockForTombstone(w: World, f: nat, target: Id, expectedVersion: nat): Option<World> {
    if f in w.flights || IsLocked(w, target) || target !in w.sources then None
    else if w.sources[target].version != expectedVersion || w.sources[target].deleted then None
    else Some(With(w, f, Flight(target, w.sources[target].space, Erasing)))
  }

  function StepCommit(w: World, f: nat): Option<World> {
    if f !in w.flights then None
    else
      var flight := w.flights[f];
      if flight.phase.Correcting? then
        Some(World(w.sources[flight.phase.id := flight.phase.row.(born := |w.sources|)], w.flights - {f}))
      else if flight.phase.Erasing? && flight.target in w.sources then
        Some(World(w.sources[flight.target := TombstonedRow(w.sources[flight.target])], w.flights - {f}))
      else None
  }

  function Step(g: Guard, w: World, e: Event): Option<World> {
    match e
    case Capture(id, row) => StepCapture(w, id, row)
    case Search(f, target, space) =>
      if f in w.flights || !IsCurrent(w.sources, space, target) then None else Some(With(w, f, Flight(target, space, Searching)))
    case Lock(f) => StepLock(w, f)
    case Recheck(f) => StepRecheck(w, f)
    case Insert(f, id, spaceClass, requested, text, retainHash) => StepInsert(g, w, f, id, spaceClass, requested, text, retainHash)
    case LockForTombstone(f, target, expectedVersion) => StepLockForTombstone(w, f, target, expectedVersion)
    case Commit(f) => StepCommit(w, f)
    case Abort(f) => Some(w.(flights := w.flights - {f}))
  }

  function Run(g: Guard, w: World, events: seq<Event>): Option<World>
    decreases |events|
  {
    if |events| == 0 then Some(w)
    else if Step(g, w, events[0]).None? then None
    else Run(g, Step(g, w, events[0]).value, events[1..])
  }

  const NO_SOURCES: World := World(map[], map[])

  // ----- The invariant -----

  /** At most one source supersedes a given one. */
  ghost predicate Linear(sources: Sources) {
    forall s, t | s in sources && t in sources && sources[s].supersedes.Some? && sources[s].supersedes == sources[t].supersedes :: s == t
  }

  /** A successor is in the Space of what it supersedes, younger, and its class is no lower. */
  ghost predicate Follows(sources: Sources, s: Id)
    requires s in sources
  {
    sources[s].supersedes.Some? ==>
      && sources[s].supersedes.value in sources
      && sources[sources[s].supersedes.value].space == sources[s].space
      && sources[sources[s].supersedes.value].born < sources[s].born
      && Rank(sources[sources[s].supersedes.value].accessClass) <= Rank(sources[s].accessClass)
  }

  ghost predicate Ordered(sources: Sources) {
    forall s | s in sources :: sources[s].born < |sources| && Follows(sources, s)
  }

  ghost predicate FlightFits(w: World, flight: Flight) {
    && flight.target in w.sources && w.sources[flight.target].space == flight.space
    && (HoldsLock(flight) ==> !w.sources[flight.target].deleted)
    && (flight.phase.Rechecked? || flight.phase.Correcting? ==> !HasSuccessor(w.sources, flight.target))
    && (flight.phase.Correcting? ==>
          && flight.phase.id !in w.sources
          && flight.phase.row.supersedes == Some(flight.target) && flight.phase.row.space == flight.space
          && Rank(w.sources[flight.target].accessClass) <= Rank(flight.phase.row.accessClass))
  }

  ghost predicate FlightsDiffer(a: Flight, b: Flight) {
    && (HoldsLock(a) && HoldsLock(b) ==> a.target != b.target)
    && (a.phase.Correcting? && b.phase.Correcting? ==> a.phase.id != b.phase.id)
  }

  ghost predicate FlightsFit(w: World) {
    && (forall f | f in w.flights :: FlightFits(w, w.flights[f]))
    && (forall f, g | f in w.flights && g in w.flights && f != g :: FlightsDiffer(w.flights[f], w.flights[g]))
  }

  ghost predicate Inv(w: World) {
    Linear(w.sources) && Ordered(w.sources) && FlightsFit(w)
  }

  lemma AddingSource(sources: Sources, id: Id, row: Source)
    requires Linear(sources) && Ordered(sources) && id !in sources && row.born == |sources|
    requires row.supersedes.Some? ==>
               && row.supersedes.value in sources && !HasSuccessor(sources, row.supersedes.value)
               && sources[row.supersedes.value].space == row.space
               && Rank(sources[row.supersedes.value].accessClass) <= Rank(row.accessClass)
    ensures Linear(sources[id := row]) && Ordered(sources[id := row])
  {
    var sources' := sources[id := row];
    assert |sources'| == |sources| + 1 by {
      assert sources'.Keys == sources.Keys + {id};
    }
    forall s | s in sources'
      ensures sources'[s].born < |sources'| && Follows(sources', s)
    {
      assert s in sources ==> Follows(sources, s);
    }
  }

  lemma ReplacingSource(sources: Sources, id: Id)
    requires Linear(sources) && Ordered(sources) && id in sources
    ensures var sources' := sources[id := TombstonedRow(sources[id])];
            && Linear(sources') && Ordered(sources') && sources'.Keys == sources.Keys
            && forall t :: HasSuccessor(sources', t) <==> HasSuccessor(sources, t)
  {
    var sources' := sources[id := TombstonedRow(sources[id])];
    assert sources'.Keys == sources.Keys;
    assert forall s | s in sources ::
        sources'[s].supersedes == sources[s].supersedes && sources'[s].born == sources[s].born && sources'[s].space == sources[s].space;
    assert |sources'| == |sources| by {
      assert |sources'.Keys| == |sources.Keys|;
    }
    forall s | s in sources'
      ensures sources'[s].born < |sources'| && Follows(sources', s)
    {
      assert Follows(sources, s);
    }
  }

  /** One flight is added or changed and still fits beside the others. */
  lemma FlightChanged(w: World, f: nat, flight: Flight)
    requires FlightsFit(w) && FlightFits(w, flight)
    requires forall g | g in w.flights && g != f :: FlightsDiffer(flight, w.flights[g]) && FlightsDiffer(w.flights[g], flight)
    ensures FlightsFit(With(w, f, flight))
  {
    assert forall g | g in With(w, f, flight).flights :: FlightFits(w, With(w, f, flight).flights[g]);
  }

  lemma CaptureKeepsInv(w: World, id: Id, row: Source, w': World)
    requires Inv(w) && StepCapture(w, id, row) == Some(w')
    ensures Inv(w')
  {
    AddingSource(w.sources, id, row.(born := |w.sources|));
    forall f | f in w'.flights
      ensures FlightFits(w', w'.flights[f])
    {
      assert FlightFits(w, w.flights[f]);
    }
  }

  /** The successor committed by a correction is the only one its predecessor gets. */
  lemma CorrectionCommitKeepsInv(w: World, f: nat, w': World)
    requires Inv(w) && StepCommit(w, f) == Some(w') && w.flights[f].phase.Correcting?
    ensures Inv(w')
  {
    var flight := w.flights[f];
    assert FlightFits(w, flight);
    AddingSource(w.sources, flight.phase.id, flight.phase.row.(born := |w.sources|));
    forall g | g in w'.flights
      ensures FlightFits(w', w'.flights[g])
    {
      assert FlightFits(w, w.flights[g]) && FlightsDiffer(w.flights[f], w.flights[g]);
    }
  }

  lemma TombstoneCommitKeepsInv(w: World, f: nat, w': World)
    requires Inv(w) && StepCommit(w, f) == Some(w') && w.flights[f].phase.Erasing?
    ensures Inv(w')
  {
    ReplacingSource(w.sources, w.flights[f].target);
    forall g | g in w'.flights
      ensures FlightFits(w', w'.flights[g])
    {
      assert FlightFits(w, w.flights[g]);
    }
  }

  lemma FlightStepKeepsInv(g: Guard, w: World, e: Event, w': World)
    requires g.recheck || g.constraint
    requires Inv(w) && Step(g, w, e) == Some(w') && !e.Capture? && !e.Commit? && !e.Abort?
    ensures Inv(w')
  {
    var f := e.flight;
    var flight := w'.flights[f];
    if f in w.flights {
      assert FlightFits(w, w.flights[f]);
      assert forall other | other in w.flights && other != f ::
          FlightsDiffer(w.flights[f], w.flights[other]) && FlightsDiffer(w.flights[other], w.flights[f]);
    }
    FlightChanged(w, f, flight);
  }

  lemma StepKeepsInv(g: Guard, w: World, e: Event, w': World)
    requires g.recheck || g.constraint
    requires Inv(w) && Step(g, w, e) == Some(w')
    ensures Inv(w')
  {
    match e
    case Capture(id, row) => CaptureKeepsInv(w, id, row, w');
    case Commit(f) =>
      if w.flights[f].phase.Correcting? {
        CorrectionCommitKeepsInv(w, f, w');
      } else {
        TombstoneCommitKeepsInv(w, f, w');
      }
    case Abort(f) =>
    case _ => FlightStepKeepsInv(g, w, e, w');
  }

  lemma {:induction false} RunKeepsInv(g: Guard, w: World, events: seq<Event>)
    requires g.recheck || g.constraint
    requires Inv(w) && Run(g, w, events).Some?
    ensures Inv(Run(g, w, events).value)
    decreases |events|
  {
    if |events| > 0 {
      StepKeepsInv(g, w, events[0], Step(g, w, events[0]).value);
      RunKeepsInv(g, Step(g, w, events[0]).value, events[1..]);
    }
  }

  // ----- Main results -----

  /**
   Under any interleaving of captures, corrections and tombstones every source has at most one
   successor, which is in its Space, and access class never falls from a source to its successor.
   */
  lemma SupersessionIsLinear(g: Guard, events: seq<Event>)
    requires g.recheck || g.constraint
    requires Run(g, NO_SOURCES, events).Some?
    ensures var sources := Run(g, NO_SOURCES, events).value.sources; Linear(sources) && Ordered(sources)
  {
    RunKeepsInv(g, NO_SOURCES, events);
  }

  /** No other open transaction is about to commit a successor of `id`. */
  ghost predicate NoRival(w: World, f: nat, id: Id) {
    !HasSuccessor(w.sources, id) && forall other | other in w.flights && other != f :: !Supersedes(w.flights[other], id)
  }

  lemma CorrectorHasNoRival(w: World, f: nat)
    requires Inv(w) && f in w.flights && (w.flights[f].phase.Rechecked? || w.flights[f].phase.Correcting?)
    ensures NoRival(w, f, w.flights[f].target)
  {
    assert FlightFits(w, w.flights[f]);
    forall other | other in w.flights && other != f
      ensures !Supersedes(w.flights[other], w.flights[f].target)
    {
      assert FlightFits(w, w.flights[other]) && FlightsDiffer(w.flights[f], w.flights[other]);
    }
  }

  /**
   At every insert and every commit of a correction that was rechecked, in any run, neither a
   committed source nor another transaction's supersedes its target. So the unique constraint never
   has to refuse one: with and without it the code takes the same steps.
   */
  lemma ConstraintNeverFires(constraint: bool, events: seq<Event>, e: Event)
    requires Run(Guard(true, constraint), NO_SOURCES, events).Some?
    ensures var w := Run(Guard(true, constraint), NO_SOURCES, events).value;
            && Step(Guard(true, true), w, e) == Step(Guard(true, false), w, e)
            && (e.Insert? && Step(Guard(true, false), w, e).Some? ==> NoRival(w, e.flight, w.flights[e.flight].target))
            && (e.Commit? && Step(Guard(true, false), w, e).Some? && w.flights[e.flight].phase.Correcting? ==>
                  NoRival(w, e.flight, w.flights[e.flight].target))
  {
    var w := Run(Guard(true, constraint), NO_SOURCES, events).value;
    RunKeepsInv(Guard(true, constraint), NO_SOURCES, events);
    if (e.Insert? || e.Commit?) && e.flight in w.flights && (w.flights[e.flight].phase.Rechecked? || w.flights[e.flight].phase.Correcting?) {
      CorrectorHasNoRival(w, e.flight);
    }
  }

  lemma {:induction false} RunAppends(g: Guard, w: World, before: seq<Event>, after: seq<Event>)
    ensures Run(g, w, before + after) == if Run(g, w, before).None? then None else Run(g, Run(g, w, before).value, after)
    decreases |before|
  {
    if |before| == 0 {
      assert before + after == after;
    } else {
      assert (before + after)[0] == before[0] && (before + after)[1..] == before[1..] + after;
      if Step(g, w, before[0]).Some? {
        RunAppends(g, Step(g, w, before[0]).value, before[1..], after);
      }
    }
  }

  lemma RunOfThree(g: Guard, w: World, a: Event, b: Event, c: Event, wa: World, wb: World, wc: World)
    requires Step(g, w, a) == Some(wa) && Step(g, wa, b) == Some(wb) && Step(g, wb, c) == Some(wc)
    ensures Run(g, w, [a, b, c]) == Some(wc)
  {
    assert [a, b, c][1..] == [b, c] && [b, c][1..] == [c] && [c][1..] == [];
    assert Run(g, wb, [c]) == Run(g, wc, []);
    assert Run(g, wa, [b, c]) == Run(g, wb, [c]);
  }

  const UNGUARDED: Guard := Guard(false, false)

  function Unchecked(f: nat, id: Id): seq<Event> {
    [Lock(f), Insert(f, id, Public, None, 0, true), Commit(f)]
  }

  /** A transaction whose search is done goes through without the second statement. */
  lemma UncheckedCorrection(w: World, f: nat, id: Id) returns (w': World)
    requires f in w.flights && w.flights[f].phase.Searching?
    requires w.flights[f].target in w.sources && !w.sources[w.flights[f].target].deleted
    requires !IsLocked(w, w.flights[f].target) && !IdTaken(w, id)
    ensures Run(UNGUARDED, w, Unchecked(f, id)) == Some(w')
    ensures w'.flights == w.flights - {f} && w'.sources.Keys == w.sources.Keys + {id}
    ensures w'.sources[id].supersedes == Some(w.flights[f].target)
    ensures forall other | other in w.sources :: w'.sources[other] == w.sources[other]
  {
    var a := With(w, f, w.flights[f].(phase := Locked));
    assert !IdTaken(a, id);
    var b := StepInsert(UNGUARDED, a, f, id, Public, None, 0, true).value;
    w' := StepCommit(b, f).value;
    RunOfThree(UNGUARDED, w, Lock(f), Insert(f, id, Public, None, 0, true), Commit(f), a, b, w');
    assert w'.flights == w.flights - {f};
  }

  /** One source, and two transactions that have both searched for its successor in vain. */
  const FIRST: Source := Source(0, None, Public, 1, false, Some(0), Some(0), true, None, 0)
  const TWO_SEARCHES: World := World(map[1 := FIRST], map[1 := Flight(1, 0, Searching), 2 := Flight(1, 0, Searching)])
  const OPENING: seq<Event> := [Capture(1, FIRST), Search(1, 1, 0), Search(2, 1, 0)]

  lemma OpeningRuns()
    ensures Run(UNGUARDED, NO_SOURCES, OPENING) == Some(TWO_SEARCHES)
  {
    var w1 := World(map[1 := FIRST], map[]);
    var w2 := World(map[1 := FIRST], map[1 := Flight(1, 0, Searching)]);
    assert IsCurrent(w1.sources, 0, 1);
    RunOfThree(UNGUARDED, NO_SOURCES, OPENING[0], OPENING[1], OPENING[2], w1, w2, TWO_SEARCHES);
  }

  lemma TwoCorrections() returns (w: World)
    ensures Run(UNGUARDED, TWO_SEARCHES, Unchecked(1, 2) + Unchecked(2, 3)) == Some(w) && !Linear(w.sources)
  {
    var w4 := UncheckedCorrection(TWO_SEARCHES, 1, 2);
    assert w4.flights == map[2 := Flight(1, 0, Searching)];
    w := UncheckedCorrection(w4, 2, 3);
    RunAppends(UNGUARDED, TWO_SEARCHES, Unchecked(1, 2), Unchecked(2, 3));
    assert w.sources[2].supersedes == w.sources[3].supersedes == Some(1);
  }

  /**
   With neither guard the lock is not enough: two corrections that searched early both succeed. In
   the database it is then the unique constraint that refuses the second.
   */
  lemma LockAloneIsNotEnough()
    ensures exists events :: Run(UNGUARDED, NO_SOURCES, events).Some? && !Linear(Run(UNGUARDED, NO_SOURCES, events).value.sources)
  {
    OpeningRuns();
    var w := TwoCorrections();
    RunAppends(UNGUARDED, NO_SOURCES, OPENING, Unchecked(1, 2) + Unchecked(2, 3));
  }

  /** Either guard suffices, and one of them is needed. */
  lemma LinearExactlyWhenGuarded(g: Guard)
    ensures (forall events | Run(g, NO_SOURCES, events).Some? :: Linear(Run(g, NO_SOURCES, events).value.sources)) <==>
            g.recheck || g.constraint
  {
    if g.recheck || g.constraint {
      forall events | Run(g, NO_SOURCES, events).Some?
        ensures Linear(Run(g, NO_SOURCES, events).value.sources)
      {
        SupersessionIsLinear(g, events);
      }
    } else {
      assert g == UNGUARDED;
      LockAloneIsNotEnough();
    }
  }

  /** What a committed source keeps: everything but one tombstone, and a tombstoned source keeps everything. */
  ghost predicate Keeps(row: Source, row': Source) {
    row' == row || (!row.deleted && IsErased(row, row'))
  }

  lemma StepKeepsSources(g: Guard, w: World, e: Event, w': World, id: Id)
    requires Inv(w) && Step(g, w, e) == Some(w') && id in w.sources
    ensures id in w'.sources && Keeps(w.sources[id], w'.sources[id])
  {
    if e.Commit? {
      assert FlightFits(w, w.flights[e.flight]);
    }
  }

  /** A tombstoned source has lost its text, and its hash unless that is to be retained; all else is as captured. */
  lemma {:induction false} SourcesAreImmutable(g: Guard, w: World, events: seq<Event>, id: Id)
    requires g.recheck || g.constraint
    requires Inv(w) && Run(g, w, events).Some? && id in w.sources
    ensures id in Run(g, w, events).value.sources && Keeps(w.sources[id], Run(g, w, events).value.sources[id])
    decreases |events|
  {
    if |events| > 0 {
      var next := Step(g, w, events[0]).value;
      StepKeepsSources(g, w, events[0], next, id);
      StepKeepsInv(g, w, events[0], next);
      SourcesAreImmutable(g, next, events[1..], id);
    }
  }

  // ----- What a correction leaves -----

  /** The first version of a successor, in the target's Space and classified no lower than anything it comes from. */
  ghost predicate IsCorrection(predecessor: Source, row: Source, target: Id, spaceClass: AccessClass, requested: Option<AccessClass>,
                               text: Hash, retainHash: bool)
  {
    && row.supersedes == Some(target) && row.space == predecessor.space
    && row.version == 1 && !row.deleted && row.text == Some(text) && row.contentHash == Some(text)
    && row.retainHash == retainHash && row.hashRetained.None?
    && Rank(spaceClass) <= Rank(row.accessClass) && Rank(predecessor.accessClass) <= Rank(row.accessClass)
    && (requested.Some? ==> Rank(requested.value) <= Rank(row.accessClass))
    && (row.accessClass == spaceClass || requested == Some(row.accessClass) || row.accessClass == predecessor.accessClass)
  }

  ghost predicate Ends(e: Event, f: nat) {
    e == Commit(f) || e == Abort(f)
  }

  lemma {:induction false} CorrectionWaits(g: Guard, w: World, events: seq<Event>, f: nat)
    requires f in w.flights && w.flights[f].phase.Correcting?
    requires Run(g, w, events).Some? && forall e | e in events :: !Ends(e, f)
    ensures f in Run(g, w, events).value.flights && Run(g, w, events).value.flights[f] == w.flights[f]
    decreases |events|
  {
    if |events| > 0 {
      assert events[0] in events;
      CorrectionWaits(g, Step(g, w, events[0]).value, events[1..], f);
    }
  }

  /**
   A correction that is inserted and commits, whatever other transactions do in between, leaves the
   text it was given as the one successor of a source that was not tombstoned before the commit.
   */
  lemma CorrectionIsKept(g: Guard, w: World, f: nat, id: Id, spaceClass: AccessClass, requested: Option<AccessClass>, text: Hash, retainHash: bool,
                         during: seq<Event>)
    requires g.recheck || g.constraint
    requires Inv(w) && Run(g, w, [Insert(f, id, spaceClass, requested, text, retainHash)] + (during + [Commit(f)])).Some?
    requires forall e | e in during :: !Ends(e, f)
    ensures f in w.flights && w.flights[f].target in w.sources
    ensures var w' := Run(g, w, [Insert(f, id, spaceClass, requested, text, retainHash)] + (during + [Commit(f)])).value;
            var target := w.flights[f].target;
            && id in w'.sources && IsCorrection(w.sources[target], w'.sources[id], target, spaceClass, requested, text, retainHash)
            && target in w'.sources && !w'.sources[target].deleted
            && forall s | s in w'.sources && w'.sources[s].supersedes == Some(target) :: s == id
  {
    var insert := Insert(f, id, spaceClass, requested, text, retainHash);
    var events := [insert] + (during + [Commit(f)]);
    assert events[0] == insert && events[1..] == during + [Commit(f)];
    var w0 := Step(g, w, insert).value;
    StepKeepsInv(g, w, insert, w0);
    RunAppends(g, w0, during, [Commit(f)]);
    var w1 := Run(g, w0, during).value;
    CorrectionWaits(g, w0, during, f);
    RunKeepsInv(g, w0, during);
    assert [Commit(f)][1..] == [] && Run(g, w, events) == Step(g, w1, Commit(f));
    CommitLeavesCorrection(g, w1, f, Step(g, w1, Commit(f)).value);
  }

  lemma CommitLeavesCorrection(g: Guard, w: World, f: nat, w': World)
    requires g.recheck || g.constraint
    requires Inv(w) && Step(g, w, Commit(f)) == Some(w') && w.flights[f].phase.Correcting?
    ensures var target, id := w.flights[f].target, w.flights[f].phase.id;
            && id in w'.sources && w'.sources[id] == w.flights[f].phase.row.(born := |w.sources|)
            && target in w'.sources && !w'.sources[target].deleted
            && forall s | s in w'.sources && w'.sources[s].supersedes == Some(target) :: s == id
  {
    assert FlightFits(w, w.flights[f]);
    StepKeepsInv(g, w, Commit(f), w');
  }

  lemma EraserWaitsOneStep(g: Guard, w: World, e: Event, w': World, f: nat)
    requires Inv(w) && Step(g, w, e) == Some(w') && !Ends(e, f)
    requires f in w.flights && w.flights[f].phase.Erasing?
    ensures f in w'.flights && w'.flights[f] == w.flights[f]
    ensures var target := w.flights[f].target; target in w.sources && target in w'.sources && w'.sources[target] == w.sources[target]
  {
    assert FlightFits(w, w.flights[f]);
    if e.Commit? {
      assert FlightFits(w, w.flights[e.flight]) && FlightsDiffer(w.flights[f], w.flights[e.flight]);
    }
  }

  lemma {:induction false} EraserWaits(g: Guard, w: World, events: seq<Event>, f: nat)
    requires g.recheck || g.constraint
    requires Inv(w) && f in w.flights && w.flights[f].phase.Erasing?
    requires Run(g, w, events).Some? && forall e | e in events :: !Ends(e, f)
    ensures var w', target := Run(g, w, events).value, w.flights[f].target;
            && f in w'.flights && w'.flights[f] == w.flights[f]
            && target in w.sources && target in w'.sources && w'.sources[target] == w.sources[target]
    decreases |events|
  {
    if |events| > 0 {
      var next := Step(g, w, events[0]).value;
      assert events[0] in events;
      EraserWaitsOneStep(g, w, events[0], next, f);
      StepKeepsInv(g, w, events[0], next);
      EraserWaits(g, next, events[1..], f);
    } else {
      assert FlightFits(w, w.flights[f]);
    }
  }

  /**
   A tombstone that takes its row's lock and commits, whatever others do in between, erases exactly
   the version it was asked to.
   */
  lemma TombstoneIsKept(g: Guard, w: World, f: nat, target: Id, expectedVersion: nat, during: seq<Event>)
    requires g.recheck || g.constraint
    requires Inv(w) && Run(g, w, [LockForTombstone(f, target, expectedVersion)] + (during + [Commit(f)])).Some?
    requires forall e | e in during :: !Ends(e, f)
    ensures target in w.sources && w.sources[target].version == expectedVersion && !w.sources[target].deleted
    ensures var w' := Run(g, w, [LockForTombstone(f, target, expectedVersion)] + (during + [Commit(f)])).value;
            target in w'.sources && IsErased(w.sources[target], w'.sources[target])
  {
    var lock := LockForTombstone(f, target, expectedVersion);
    var events := [lock] + (during + [Commit(f)]);
    assert events[0] == lock && events[1..] == during + [Commit(f)];
    var w0 := Step(g, w, lock).value;
    StepKeepsInv(g, w, lock, w0);
    RunAppends(g, w0, during, [Commit(f)]);
    EraserWaits(g, w0, during, f);
    assert [Commit(f)][1..] == [] && Run(g, w, events) == Step(g, Run(g, w0, during).value, Commit(f));
  }

  // ----- Resolving the current source -----

  /** The recursive query of `resolveCurrentSourceId`: the source, its successor, and so on. */
  ghost function Chain(sources: Sources, id: Id): (chain: seq<Id>)
    requires Ordered(sources) && id in sources
    ensures chain != [] && chain[0] == id && forall c | c in chain :: c in sources
    decreases |sources| - sources[id].born
  {
    if !HasSuccessor(sources, id) then [id]
    else
      var s :| s in sources && sources[s].supersedes == Some(id);
      assert Follows(sources, s);
      [id] + Chain(sources, s)
  }

  /** The row the query returns: the chain's source that nothing supersedes. */
  ghost function CurrentSource(sources: Sources, id: Id): Id
    requires Ordered(sources) && id in sources
  {
    Chain(sources, id)[|Chain(sources, id)| - 1]
  }

  ghost predicate IsChain(sources: Sources, chain: seq<Id>) {
    && (forall i | 0 <= i < |chain| :: chain[i] in sources)
    && (forall i, j | 0 <= i < j < |chain| ::
          && sources[chain[i]].born < sources[chain[j]].born
          && Rank(sources[chain[i]].accessClass) <= Rank(sources[chain[j]].accessClass))
    && (forall i | 0 <= i < |chain| :: HasSuccessor(sources, chain[i]) <==> i < |chain| - 1)
  }

  /**
   From any source the query terminates at exactly one source without a successor, and along the
   chain that leads there the access class never falls.
   */
  lemma {:induction false} ChainLeadsToCurrent(sources: Sources, id: Id)
    requires Linear(sources) && Ordered(sources) && id in sources
    ensures IsChain(sources, Chain(sources, id))
    ensures !HasSuccessor(sources, CurrentSource(sources, id))
    ensures forall c | c in Chain(sources, id) && !HasSuccessor(sources, c) :: c == CurrentSource(sources, id)
    decreases |sources| - sources[id].born
  {
    if HasSuccessor(sources, id) {
      var chain := Chain(sources, id);
      var s := chain[1];
      assert Follows(sources, s);
      ChainLeadsToCurrent(sources, s);
      var rest := Chain(sources, s);
      assert chain == [id] + rest;
      forall j | 0 < j < |chain|
        ensures sources[id].born < sources[chain[j]].born
        ensures Rank(sources[id].accessClass) <= Rank(sources[chain[j]].accessClass)
      {
        assert chain[j] == rest[j - 1];
        assert j > 1 ==> sources[rest[0]].born < sources[rest[j - 1]].born;
      }
      forall i | 0 <= i < |chain|
        ensures HasSuccessor(sources, chain[i]) <==> i < |chain| - 1
      {
        assert i > 0 ==> chain[i] == rest[i - 1];
      }
    }
  }

  /** Superseding does not change where a chain leads, so every member resolves to the same source. */
  lemma {:induction false} MembersResolveAlike(sources: Sources, id: Id, member: Id)
    requires Linear(sources) && Ordered(sources) && id in sources && member in Chain(sources, id)
    ensures member in sources && CurrentSource(sources, member) == CurrentSource(sources, id)
    decreases |sources| - sources[id].born
  {
    if member != id {
      var chain := Chain(sources, id);
      var s := chain[1];
      assert Follows(sources, s);
      assert chain == [id] + Chain(sources, s);
      MembersResolveAlike(sources, s, member);
    }
  }

  /** Superseding a source does not change what it resolves to: the successor resolves to the same. */
  lemma SuccessorResolvesAlike(sources: Sources, s: Id)
    requires Linear(sources) && Ordered(sources) && s in sources && sources[s].supersedes.Some?
    ensures sources[s].supersedes.value in sources
    ensures CurrentSource(sources, s) == CurrentSource(sources, sources[s].supersedes.value)
  {
    assert Follows(sources, s);
    var id := sources[s].supersedes.value;
    assert Chain(sources, id)[1] in sources;
    MembersResolveAlike(sources, id, s);
  }

  // ----- The repository -----

  /** No text is left, the hash exactly if it is to be retained, and everything else is as it was, one version on. */
  predicate IsErased(row: Source, row': Source) {
    && row'.deleted && row'.text.None? && row'.version == row.version + 1
    && (row.retainHash ==> row'.contentHash == row.contentHash && row'.hashRetained == Some(true))
    && (!row.retainHash ==> row'.contentHash.None? && row'.hashRetained == Some(false))
    && row'.space == row.space && row'.supersedes == row.supersedes && row'.accessClass == row.accessClass
    && row'.retainHash == row.retainHash && row'.born == row.born
  }

  class ContentRepository {
    var sources: Sources
    var chunks: map<Id, seq<Hash>>

    /** `tombstoneSource`, holding the row's lock: erase the text and the chunks, and the hash unless retained. */
    method TombstoneSource(id: Id, expectedVersion: nat) returns (row: Option<Source>)
      modifies this
      ensures row.Some? <==> id in old(sources) && old(sources)[id].version == expectedVersion && !old(sources)[id].deleted
      ensures row.None? ==> sources == old(sources) && chunks == old(chunks)
      ensures row.Some? ==> sources == old(sources)[id := row.value] && IsErased(old(sources)[id], row.value)
      ensures row.Some? ==> id !in chunks && chunks == old(chunks) - {id}
    {
      if id !in sources || sources[id].version != expectedVersion || sources[id].deleted {
        return None;
      }
      row := Some(TombstonedRow(sources[id]));
      sources := sources[id := row.value];
      chunks := chunks - {id};
    }
  }
}
