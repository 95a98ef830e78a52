/**
 Reauthorizing a batch of relationship requests while other transactions write: evaluate every
 request and record the rows read, lock exactly those rows, evaluate again and compare.
 The functions say what an evaluation reads, records and answers; the class and the methods do it.
 */
module AuthorityBatch {
  import opened Wrappers
  import opened SpaceGrants
  import opened AuthorityRules

  // ----- Recording -----

  /** The rows an evaluation has read, and whether it read one of them with two different contents. */
  datatype Record = Record(spaces: Spaces, grants: Grants, paths: map<(Id, Id), seq<Id>>, inconsistent: bool)

  const EMPTY: Record := Record(map[], map[], map[], false)

  function WithSpace(rec: Record, id: Id, row: Space): Record {
    if id in rec.spaces && rec.spaces[id] != row then rec.(inconsistent := true) else rec.(spaces := rec.spaces[id := row])
  }

  function WithGrant(rec: Record, g: Id, row: Grant): Record {
    if g in rec.grants && rec.grants[g] != row then rec.(inconsistent := true) else rec.(grants := rec.grants[g := row])
  }

  function WithRows(rec: Record, ids: seq<Id>, rows: Spaces): Record
    requires forall id | id in ids :: id in rows
  {
    if |ids| == 0 then rec
    else WithSpace(WithRows(rec, ids[..|ids| - 1], rows), ids[|ids| - 1], rows[ids[|ids| - 1]])
  }

  function WithPath(rec: Record, key: (Id, Id), ids: seq<Id>, rows: Spaces): Record
    requires forall id | id in ids :: id in rows
  {
    WithRows(if key in rec.paths && rec.paths[key] != ids then rec.(inconsistent := true) else rec.(paths := rec.paths[key := ids]), ids, rows)
  }

  /** The mutable discovery an evaluation fills. */
  class Discovery {
    var spaces: Spaces
    var grants: Grants
    var paths: map<(Id, Id), seq<Id>>
    var inconsistent: bool

    function View(): Record
      reads this
    {
      Record(spaces, grants, paths, inconsistent)
    }

    constructor ()
      ensures View() == EMPTY
    {
      spaces, grants, paths, inconsistent := map[], map[], map[], false;
    }

    /** The first reading of a row is kept; a different later one makes the discovery inconsistent for good. */
    method RecordSpace(id: Id, row: Space)
      modifies this
      ensures id in spaces && spaces[id] == if id in old(spaces) then old(spaces)[id] else row
      ensures spaces.Keys == old(spaces).Keys + {id} && forall other | other in old(spaces) :: spaces[other] == old(spaces)[other]
      ensures inconsistent <==> old(inconsistent) || spaces[id] != row
      ensures grants == old(grants) && paths == old(paths)
      ensures View() == WithSpace(old(View()), id, row)
    {
      if id in spaces && spaces[id] != row {
        inconsistent := true;
      } else {
        spaces := spaces[id := row];
      }
    }

    method RecordGrant(g: Id, row: Grant)
      modifies this
      ensures g in grants && grants[g] == if g in old(grants) then old(grants)[g] else row
      ensures grants.Keys == old(grants).Keys + {g} && forall other | other in old(grants) :: grants[other] == old(grants)[other]
      ensures inconsistent <==> old(inconsistent) || grants[g] != row
      ensures spaces == old(spaces) && paths == old(paths)
      ensures View() == WithGrant(old(View()), g, row)
    {
      if g in grants && grants[g] != row {
        inconsistent := true;
      } else {
        grants := grants[g := row];
      }
    }

    method RecordPath(key: (Id, Id), ids: seq<Id>, rows: Spaces)
      requires forall id | id in ids :: id in rows
      modifies this
      ensures !inconsistent ==> key in paths && paths[key] == ids && forall id | id in ids :: id in spaces && spaces[id] == rows[id]
      ensures old(inconsistent) ==> inconsistent
      ensures View() == WithPath(old(View()), key, ids, rows)
    {
      if key in paths && paths[key] != ids {
        inconsistent := true;
      } else {
        paths := paths[key := ids];
      }
      ghost var start := View();
      for k := 0 to |ids|
        invariant View() == WithRows(start, ids[..k], rows)
        invariant paths == start.paths && (start.inconsistent ==> inconsistent)
        invariant !inconsistent ==> forall m | 0 <= m < k :: ids[m] in spaces && spaces[ids[m]] == rows[ids[m]]
      {
        RecordSpace(ids[k], rows[ids[k]]);
        assert ids[..k + 1][..k] == ids[..k];
      }
      assert ids[..|ids|] == ids;
    }
  }

  // ----- One evaluation -----

  /** What a step of an evaluation recorded and answered, and the next statement. */
  datatype Outcome<+R> = Outcome(rec: Record, result: R, next: nat)

  predicate IsDirect(db: Db, g: Id, actor: Actor, space: Id) {
    g in db.grants && Held(db.grants[g], actor) && db.grants[g].resource == space
  }

  /** `discoverRelationshipAuthorityGrant`: read the grant again and record it. */
  function ConfirmGrant(db: Db, rec: Record, actor: Actor, g: Id, space: Id): (Record, Option<Token>) {
    if !IsDirect(db, g, actor, space) then (rec, None)
    else
      var rec' := WithGrant(rec, g, db.grants[g]);
      (rec', if rec'.inconsistent then None else Some(Token(g, space)))
  }

  /** The first direct grant the query at statement `at` finds, if it is still there at the next statement. */
  ghost function TryDirect(history: History, at: nat, actor: Actor, target: Id, rec: Record): Outcome<Option<Token>> {
    var direct := DirectGrants(history(at).grants, actor, target);
    if direct == {} then Outcome(rec, None, at + 1)
    else
      var (rec', token) := ConfirmGrant(history(at + 1), rec, actor, Least(direct), target);
      Outcome(rec', token, at + 2)
  }

  /** Statement `at` reads the grant, unless recording the path already failed. */
  function ConfirmAfterPath(db: Db, at: nat, actor: Actor, g: Id, space: Id, rec: Record): Outcome<Option<Token>> {
    if rec.inconsistent then Outcome(rec, None, at)
    else
      var (rec', token) := ConfirmGrant(db, rec, actor, g, space);
      Outcome(rec', token, at + 1)
  }

  /** `discoverInheritedRelationshipAuthorityGrant`: statement `at` loads the path, the next one the grant. */
  ghost function ConfirmInherited(history: History, at: nat, actor: Actor, target: Id, g: Id, space: Id, rec: Record): Outcome<Option<Token>> {
    var path := LoadPath(history(at).spaces, target, space);
    if path.None? then Outcome(rec, None, at + 1)
    else ConfirmAfterPath(history(at + 1), at + 1, actor, g, space, WithPath(rec, (target, space), path.value, history(at).spaces))
  }

  /** The nearest inherited grant among those the query at statement `asked` found. */
  ghost function TryInherited(history: History, asked: nat, at: nat, actor: Actor, target: Id, rec: Record): Outcome<Option<Token>>
    requires Live(history(asked).spaces, target)
  {
    var db := history(asked);
    var inherited := InheritedGrants(db.spaces, db.grants, actor, target);
    if db.spaces[target].restricted || inherited == {} then Outcome(rec, None, at)
    else
      NearestHasPath(db.spaces, db.grants, actor, target);
      var g := Nearest(inherited).1;
      ConfirmInherited(history, at, actor, target, g, db.grants[g].resource, rec)
  }

  /** The decision on the grants the query at statement `at` finds. */
  ghost function ReadByGrant(history: History, at: nat, actor: Actor, target: Id, rec: Record): Outcome<Readability>
    requires Live(history(at).spaces, target)
  {
    var direct := TryDirect(history, at, actor, target, rec);
    if direct.result.Some? then Outcome(direct.rec, Readability(DirectGrant, direct.result), direct.next)
    else
      var inherited := TryInherited(history, at, direct.next, actor, target, direct.rec);
      Outcome(inherited.rec, Readability(if inherited.result.Some? then InheritedGrant else AccessDenied, inherited.result), inherited.next)
  }

  /** `canReadSpaceResource` with a discovery. */
  ghost function Read(history: History, at: nat, actor: Actor, admin: bool, target: Id, rec: Record): Outcome<Readability> {
    if !Live(history(at).spaces, target) then Outcome(rec, Readability(SpaceNotFound, None), at + 1)
    else
      var rec' := WithSpace(rec, target, history(at).spaces[target]);
      if rec'.inconsistent then Outcome(rec', Readability(AccessDenied, None), at + 1)
      else if admin then Outcome(rec', Readability(AdminRead, None), at + 1)
      else if !Live(history(at + 1).spaces, target) then Outcome(rec', Readability(SpaceNotFound, None), at + 2)
      else if history(at + 1).spaces[target].kind.WorkspaceRoot? then Outcome(rec', Readability(RootRead, None), at + 2)
      else ReadByGrant(history, at + 1, actor, target, rec')
  }

  datatype Verdict = Verdict(allowed: bool, tokens: set<Token>)

  function Tokens(token: Option<Token>): set<Token> {
    if token.Some? then {token.value} else {}
  }

  /** `contributorAuthority`: the first direct grant better than a viewer's, recorded. */
  ghost function Contribute(db: Db, actor: Actor, admin: bool, space: Id, rec: Record): (Record, Verdict) {
    var found := ContributorGrants(db.grants, actor, space);
    if admin then (rec, Verdict(true, {}))
    else if found == {} then (rec, Verdict(false, {}))
    else
      var rec' := WithGrant(rec, Least(found), db.grants[Least(found)]);
      (rec', if rec'.inconsistent then Verdict(false, {}) else Verdict(true, {Token(Least(found), space)}))
  }

  function ReadVerdict(read: Outcome<Readability>): Outcome<Verdict> {
    Outcome(read.rec, Verdict(IsAllowed(read.result), Tokens(read.result.token)), read.next)
  }

  /** The rest of `b1Decision` once the Space has been read. */
  ghost function DecideAfterRead(history: History, ctx: Context, admin: bool, request: Request, space: Id, read: Outcome<Readability>): Outcome<Verdict> {
    if !IsAllowed(read.result) || !request.RelationshipEnd? then ReadVerdict(read)
    else
      var (rec, contributor) := Contribute(history(read.next), ctx.actor, admin, space, read.rec);
      Outcome(rec, Verdict(contributor.allowed, Tokens(read.result.token) + contributor.tokens), read.next + 1)
  }

  /** `relationshipSpaceReadDecision` and the branches of `b1Decision` a batch can reach. */
  ghost function Decide(history: History, at: nat, ctx: Context, admin: bool, request: Request, rec: Record): Outcome<Verdict> {
    if request.SpaceRead? then ReadVerdict(Read(history, at, ctx.actor, admin, request.space, rec))
    else if !ScopeWithin(history(at), ctx.ceiling, request) then Outcome(rec, Verdict(false, {}), at + 1)
    else
      var space := history(at).scopes[request].space;
      DecideAfterRead(history, ctx, admin, request, space, Read(history, at + 1, ctx.actor, admin, space, rec))
  }

  /** `evaluateRelationshipAuthorityRequests` */
  ghost function EvaluateAll(history: History, at: nat, ctx: Context, admin: bool, requests: seq<Request>): Outcome<seq<Verdict>> {
    if |requests| == 0 then Outcome(EMPTY, [], at)
    else
      var before := EvaluateAll(history, at, ctx, admin, requests[..|requests| - 1]);
      var last := Decide(history, before.next, ctx, admin, requests[|requests| - 1], before.rec);
      Outcome(last.rec, before.result + [last.result], last.next)
  }

  predicate AllAllowed(verdicts: seq<Verdict>) {
    forall k | 0 <= k < |verdicts| :: verdicts[k].allowed
  }

  // ----- What it records is what it rests on -----

  predicate Grows(rec: Record, rec': Record) {
    rec.spaces.Keys <= rec'.spaces.Keys && rec.grants.Keys <= rec'.grants.Keys && (rec.inconsistent ==> rec'.inconsistent)
  }

  ghost predicate ReadBetween(history: History, start: nat, end: nat, rec: Record, actor: Actor) {
    Faithful(history, start, end, rec.spaces, rec.grants, actor)
  }

  lemma ConfirmGrantSees(history: History, start: nat, at: nat, rec: Record, actor: Actor, g: Id, space: Id)
    requires start <= at && ReadBetween(history, start, at, rec, actor)
    ensures var (rec', token) := ConfirmGrant(history(at), rec, actor, g, space);
            && Grows(rec, rec') && rec'.spaces == rec.spaces && ReadBetween(history, start, at + 1, rec', actor)
            && (token.Some? ==> !rec'.inconsistent && g in rec'.grants && ByDirect(history, at, g, actor, space))
  {
    if IsDirect(history(at), g, actor, space) {
      assert GrantSeen(history, at, g, history(at).grants[g], actor);
    }
  }

  lemma TryDirectSees(history: History, start: nat, at: nat, actor: Actor, target: Id, rec: Record)
    requires start <= at && ReadBetween(history, start, at, rec, actor)
    ensures var o := TryDirect(history, at, actor, target, rec);
            && at < o.next && Grows(rec, o.rec) && ReadBetween(history, start, o.next, o.rec, actor)
            && (o.result.Some? ==> DirectSeen(history, start, o.next, o.rec.grants.Keys, actor, target))
  {
    FaithfulLonger(history, start, at, at + 1, rec.spaces, rec.grants, actor);
    var direct := DirectGrants(history(at).grants, actor, target);
    if direct != {} {
      ConfirmGrantSees(history, start, at + 1, rec, actor, Least(direct), target);
    }
  }

  lemma {:induction false} WithRowsSees(history: History, start: nat, at: nat, actor: Actor, rec: Record, ids: seq<Id>, rows: Spaces)
    requires start <= at && ReadBetween(history, start, at + 1, rec, actor) && rows == history(at).spaces
    requires forall id | id in ids :: id in rows && Live(rows, id)
    ensures var rec' := WithRows(rec, ids, rows);
            && Grows(rec, rec') && rec'.grants == rec.grants
            && ReadBetween(history, start, at + 1, rec', actor)
            && (!rec'.inconsistent ==> forall id | id in ids :: id in rec'.spaces)
  {
    if |ids| > 0 {
      var last := ids[|ids| - 1];
      WithRowsSees(history, start, at, actor, rec, ids[..|ids| - 1], rows);
      assert last in ids && SpaceSeen(history, at, last, rows[last]);
      assert forall id | id in ids :: id == last || id in ids[..|ids| - 1];
    }
  }

  lemma WithPathSees(history: History, start: nat, at: nat, actor: Actor, rec: Record, key: (Id, Id), ids: seq<Id>, rows: Spaces)
    requires start <= at && ReadBetween(history, start, at, rec, actor) && rows == history(at).spaces
    requires forall id | id in ids :: id in rows && Live(rows, id)
    ensures var rec' := WithPath(rec, key, ids, rows);
            && Grows(rec, rec') && rec'.grants == rec.grants
            && ReadBetween(history, start, at + 1, rec', actor)
            && (!rec'.inconsistent ==> forall id | id in ids :: id in rec'.spaces)
  {
    FaithfulLonger(history, start, at, at + 1, rec.spaces, rec.grants, actor);
    var noted := if key in rec.paths && rec.paths[key] != ids then rec.(inconsistent := true) else rec.(paths := rec.paths[key := ids]);
    WithRowsSees(history, start, at, actor, noted, ids, rows);
  }

  lemma ConfirmAfterPathSees(history: History, start: nat, at: nat, actor: Actor, target: Id, g: Id, space: Id, rec: Record)
    requires start <= at && ReadBetween(history, start, at + 1, rec, actor)
    requires !rec.inconsistent ==> ByPath(history, at, space, rec.spaces.Keys, target)
    ensures var o := ConfirmAfterPath(history(at + 1), at + 1, actor, g, space, rec);
            && at < o.next && Grows(rec, o.rec) && ReadBetween(history, start, o.next, o.rec, actor)
            && (o.result.Some? ==> InheritedSeen(history, start, o.next, o.rec.spaces.Keys, o.rec.grants.Keys, actor, target))
  {
    if !rec.inconsistent {
      ConfirmGrantSees(history, start, at + 1, rec, actor, g, space);
      var (rec', token) := ConfirmGrant(history(at + 1), rec, actor, g, space);
      if token.Some? {
        PathAndGrantSeen(history, start, at, g, space, rec'.spaces.Keys, rec'.grants.Keys, actor, target);
      }
    }
  }

  lemma ConfirmInheritedSees(history: History, start: nat, at: nat, actor: Actor, target: Id, g: Id, space: Id, rec: Record)
    requires start <= at && ReadBetween(history, start, at, rec, actor)
    ensures var o := ConfirmInherited(history, at, actor, target, g, space, rec);
            && at < o.next && Grows(rec, o.rec) && ReadBetween(history, start, o.next, o.rec, actor)
            && (o.result.Some? ==> InheritedSeen(history, start, o.next, o.rec.spaces.Keys, o.rec.grants.Keys, actor, target))
  {
    var rows := history(at).spaces;
    var path := LoadPath(rows, target, space);
    if path.None? {
      FaithfulLonger(history, start, at, at + 1, rec.spaces, rec.grants, actor);
    } else {
      assert forall id | id in path.value :: Live(rows, id);
      WithPathSees(history, start, at, actor, rec, (target, space), path.value, rows);
      ConfirmAfterPathSees(history, start, at, actor, target, g, space, WithPath(rec, (target, space), path.value, rows));
    }
  }

  lemma PathAndGrantSeen(history: History, start: nat, at: nat, g: Id, space: Id, spaceIds: set<Id>, grantIds: set<Id>, actor: Actor, target: Id)
    requires start <= at && g in grantIds
    requires ByPath(history, at, space, spaceIds, target) && ByDirect(history, at + 1, g, actor, space)
    ensures InheritedSeen(history, start, at + 2, spaceIds, grantIds, actor, target)
  {
    assert ByInherited(history, start, at + 2, at, g, space, spaceIds, actor, target);
  }

  lemma ReadByGrantSees(history: History, start: nat, at: nat, actor: Actor, target: Id, rec: Record)
    requires start <= at && ReadBetween(history, start, at, rec, actor) && Live(history(at).spaces, target)
    ensures var o := ReadByGrant(history, at, actor, target, rec);
            && at < o.next && Grows(rec, o.rec) && ReadBetween(history, start, o.next, o.rec, actor)
            && (IsAllowed(o.result) ==>
                  || DirectSeen(history, start, o.next, o.rec.grants.Keys, actor, target)
                  || InheritedSeen(history, start, o.next, o.rec.spaces.Keys, o.rec.grants.Keys, actor, target))
  {
    TryDirectSees(history, start, at, actor, target, rec);
    var direct := TryDirect(history, at, actor, target, rec);
    var db := history(at);
    var inherited := InheritedGrants(db.spaces, db.grants, actor, target);
    if direct.result.None? && inherited != {} {
      NearestHasPath(db.spaces, db.grants, actor, target);
      var g := Nearest(inherited).1;
      ConfirmInheritedSees(history, start, direct.next, actor, target, g, db.grants[g].resource, direct.rec);
    }
  }

  lemma TargetSeen(history: History, start: nat, at: nat, actor: Actor, target: Id, rec: Record)
    requires start <= at && ReadBetween(history, start, at, rec, actor) && Live(history(at).spaces, target)
    ensures var rec' := WithSpace(rec, target, history(at).spaces[target]);
            && Grows(rec, rec') && ReadBetween(history, start, at + 1, rec', actor) && target in rec'.spaces
            && LiveSeen(history, start, at + 1, target)
  {
    assert SpaceSeen(history, at, target, history(at).spaces[target]);
  }

  lemma ReadSees(history: History, start: nat, at: nat, actor: Actor, admin: bool, target: Id, rec: Record)
    requires start <= at && ReadBetween(history, start, at, rec, actor)
    ensures var o := Read(history, at, actor, admin, target, rec);
            && at < o.next && Grows(rec, o.rec) && ReadBetween(history, start, o.next, o.rec, actor)
            && (IsAllowed(o.result) && !o.rec.inconsistent ==>
                  SupportsRead(history, start, o.next, o.rec.spaces.Keys, o.rec.grants.Keys, actor, admin, target))
  {
    if Live(history(at).spaces, target) {
      var rec' := WithSpace(rec, target, history(at).spaces[target]);
      TargetSeen(history, start, at, actor, target, rec);
      FaithfulLonger(history, start, at + 1, at + 2, rec'.spaces, rec'.grants, actor);
      if Live(history(at + 1).spaces, target) && !admin && !rec'.inconsistent {
        if history(at + 1).spaces[target].kind.WorkspaceRoot? {
          assert ByRoot(history, at + 1, target);
        } else {
          ReadByGrantSees(history, start, at + 1, actor, target, rec');
          GrowsTwice(rec, rec', ReadByGrant(history, at + 1, actor, target, rec').rec);
        }
      }
    } else {
      FaithfulLonger(history, start, at, at + 1, rec.spaces, rec.grants, actor);
    }
  }

  lemma ContributeSees(history: History, start: nat, at: nat, actor: Actor, admin: bool, space: Id, rec: Record)
    requires start <= at && ReadBetween(history, start, at, rec, actor)
    ensures var (rec', verdict) := Contribute(history(at), actor, admin, space, rec);
            && Grows(rec, rec') && ReadBetween(history, start, at + 1, rec', actor)
            && (verdict.allowed ==> admin || ContributorSeen(history, start, at + 1, rec'.grants.Keys, actor, space))
  {
    FaithfulLonger(history, start, at, at + 1, rec.spaces, rec.grants, actor);
    var found := ContributorGrants(history(at).grants, actor, space);
    if !admin && found != {} {
      var g := Least(found);
      assert GrantSeen(history, at, g, history(at).grants[g], actor) && ByContributor(history, at, g, actor, space);
    }
  }

  lemma DecideAfterReadSees(history: History, start: nat, at: nat, ctx: Context, admin: bool, request: Request, space: Id, read: Outcome<Readability>)
    requires !request.SpaceRead? && start <= at < read.next
    requires ByScope(history, at, ctx.ceiling, request, space) && ReadBetween(history, start, read.next, read.rec, ctx.actor)
    requires IsAllowed(read.result) && !read.rec.inconsistent ==>
               SupportsRead(history, start, read.next, read.rec.spaces.Keys, read.rec.grants.Keys, ctx.actor, admin, space)
    ensures var o := DecideAfterRead(history, ctx, admin, request, space, read);
            && at < o.next && Grows(read.rec, o.rec) && ReadBetween(history, start, o.next, o.rec, ctx.actor)
            && (o.result.allowed && !o.rec.inconsistent ==>
                  SupportsRequest(history, start, o.next, o.rec.spaces.Keys, o.rec.grants.Keys, ctx, admin, request))
  {
    if IsAllowed(read.result) && request.RelationshipEnd? {
      ContributeSees(history, start, read.next, ctx.actor, admin, space, read.rec);
      var (rec', verdict) := Contribute(history(read.next), ctx.actor, admin, space, read.rec);
      if !rec'.inconsistent {
        SupportsReadGrows(history, start, read.next, read.rec.spaces.Keys, read.rec.grants.Keys,
                          read.next + 1, rec'.spaces.Keys, rec'.grants.Keys, ctx.actor, admin, space);
      }
    }
  }

  /** What the outcome of deciding one request shows. */
  ghost predicate DecisionSeen(history: History, start: nat, at: nat, ctx: Context, admin: bool, request: Request, rec: Record, o: Outcome<Verdict>) {
    && at < o.next && Grows(rec, o.rec) && ReadBetween(history, start, o.next, o.rec, ctx.actor)
    && (o.result.allowed && !o.rec.inconsistent ==>
          SupportsRequest(history, start, o.next, o.rec.spaces.Keys, o.rec.grants.Keys, ctx, admin, request))
  }

  lemma GrowsTwice(a: Record, b: Record, c: Record)
    requires Grows(a, b) && Grows(b, c)
    ensures Grows(a, c)
  {
  }

  lemma DecideInScopeSees(history: History, start: nat, at: nat, ctx: Context, admin: bool, request: Request, space: Id, rec: Record)
    requires start <= at && ReadBetween(history, start, at, rec, ctx.actor)
    requires !request.SpaceRead? && ByScope(history, at, ctx.ceiling, request, space)
    ensures DecisionSeen(history, start, at, ctx, admin, request, rec,
                         DecideAfterRead(history, ctx, admin, request, space, Read(history, at + 1, ctx.actor, admin, space, rec)))
  {
    FaithfulLonger(history, start, at, at + 1, rec.spaces, rec.grants, ctx.actor);
    ReadSees(history, start, at + 1, ctx.actor, admin, space, rec);
    var read := Read(history, at + 1, ctx.actor, admin, space, rec);
    DecideAfterReadSees(history, start, at, ctx, admin, request, space, read);
    GrowsTwice(rec, read.rec, DecideAfterRead(history, ctx, admin, request, space, read).rec);
  }

  lemma DecideSees(history: History, start: nat, at: nat, ctx: Context, admin: bool, request: Request, rec: Record)
    requires start <= at && ReadBetween(history, start, at, rec, ctx.actor)
    ensures DecisionSeen(history, start, at, ctx, admin, request, rec, Decide(history, at, ctx, admin, request, rec))
  {
    if request.SpaceRead? {
      ReadSees(history, start, at, ctx.actor, admin, request.space, rec);
    } else if ScopeWithin(history(at), ctx.ceiling, request) {
      DecideInScopeSees(history, start, at, ctx, admin, request, history(at).scopes[request].space, rec);
    } else {
      FaithfulLonger(history, start, at, at + 1, rec.spaces, rec.grants, ctx.actor);
    }
  }

  /** Every allowed request of a consistent evaluation is supported by what the evaluation recorded. */
  ghost predicate AllSupported(history: History, start: nat, end: nat, rec: Record, ctx: Context, admin: bool, requests: seq<Request>) {
    forall k | 0 <= k < |requests| :: SupportsRequest(history, start, end, rec.spaces.Keys, rec.grants.Keys, ctx, admin, requests[k])
  }

  lemma OneMoreSupported(history: History, at: nat, ctx: Context, admin: bool, requests: seq<Request>, request: Request,
                         before: Outcome<seq<Verdict>>, last: Outcome<Verdict>)
    requires AllSupported(history, at, before.next, before.rec, ctx, admin, requests)
    requires SupportsRequest(history, at, last.next, last.rec.spaces.Keys, last.rec.grants.Keys, ctx, admin, request)
    requires before.next <= last.next && Grows(before.rec, last.rec)
    ensures AllSupported(history, at, last.next, last.rec, ctx, admin, requests + [request])
  {
    forall k | 0 <= k < |requests|
      ensures SupportsRequest(history, at, last.next, last.rec.spaces.Keys, last.rec.grants.Keys, ctx, admin, requests[k])
    {
      SupportsRequestGrows(history, at, before.next, before.rec.spaces.Keys, before.rec.grants.Keys,
                           last.next, last.rec.spaces.Keys, last.rec.grants.Keys, ctx, admin, requests[k]);
    }
  }

  /** What the outcome of an evaluation shows, whatever others write meanwhile. */
  ghost predicate EvaluationSeen(history: History, at: nat, ctx: Context, admin: bool, requests: seq<Request>, o: Outcome<seq<Verdict>>) {
    && at <= o.next && |o.result| == |requests| && ReadBetween(history, at, o.next, o.rec, ctx.actor)
    && (AllAllowed(o.result) && !o.rec.inconsistent ==> AllSupported(history, at, o.next, o.rec, ctx, admin, requests))
  }

  lemma {:induction false} EvaluateSees(history: History, at: nat, ctx: Context, admin: bool, requests: seq<Request>)
    ensures EvaluationSeen(history, at, ctx, admin, requests, EvaluateAll(history, at, ctx, admin, requests))
    decreases |requests|
  {
    if |requests| > 0 {
      var front, request := requests[..|requests| - 1], requests[|requests| - 1];
      EvaluateSees(history, at, ctx, admin, front);
      var before := EvaluateAll(history, at, ctx, admin, front);
      DecideSees(history, at, before.next, ctx, admin, request, before.rec);
      var last := Decide(history, before.next, ctx, admin, request, before.rec);
      AllowedFront(before.result, last.result);
      if AllAllowed(before.result) && last.result.allowed && !last.rec.inconsistent {
        OneMoreSupported(history, at, ctx, admin, front, request, before, last);
        assert requests == front + [request];
      }
    }
  }

  lemma AllowedFront(verdicts: seq<Verdict>, last: Verdict)
    ensures AllAllowed(verdicts + [last]) <==> AllAllowed(verdicts) && last.allowed
  {
    var all := verdicts + [last];
    assert all[|verdicts|] == last && forall k | 0 <= k < |verdicts| :: all[k] == verdicts[k];
  }

  // ----- When nobody else writes -----

  ghost predicate Steady(history: History, from: nat, db: Db) {
    forall i: nat | from <= i :: history(i) == db
  }

  /** Everything recorded is what `db` holds. */
  ghost predicate Agrees(rec: Record, db: Db) {
    && !rec.inconsistent
    && (forall id | id in rec.spaces :: id in db.spaces && rec.spaces[id] == db.spaces[id])
    && (forall g | g in rec.grants :: g in db.grants && rec.grants[g] == db.grants[g])
    && (forall key | key in rec.paths :: LoadPath(db.spaces, key.0, key.1) == Some(rec.paths[key]))
  }

  /** The rows and paths a decision rests on in one state of the database. */
  datatype Basis = Basis(spaces: set<Id>, grants: set<Id>, paths: set<(Id, Id)>)

  const NO_BASIS: Basis := Basis({}, {}, {})

  function Both(a: Basis, b: Basis): Basis {
    Basis(a.spaces + b.spaces, a.grants + b.grants, a.paths + b.paths)
  }

  ghost function GrantBasis(db: Db, actor: Actor, target: Id): Basis {
    var direct := DirectGrants(db.grants, actor, target);
    var inherited := InheritedGrants(db.spaces, db.grants, actor, target);
    if direct != {} then Basis({}, {Least(direct)}, {})
    else if inherited == {} then NO_BASIS
    else
      NearestHasPath(db.spaces, db.grants, actor, target);
      InheritedBasis(db, target, Nearest(inherited).1)
  }

  ghost function InheritedBasis(db: Db, target: Id, g: Id): Basis
    requires g in db.grants && LoadPath(db.spaces, target, db.grants[g].resource).Some?
  {
    Basis(set id | id in LoadPath(db.spaces, target, db.grants[g].resource).value, {g}, {(target, db.grants[g].resource)})
  }

  ghost function ReadBasis(db: Db, actor: Actor, admin: bool, target: Id): Basis {
    if !Live(db.spaces, target) then NO_BASIS
    else if admin || db.spaces[target].kind.WorkspaceRoot? then Basis({target}, {}, {})
    else Both(Basis({target}, {}, {}), GrantBasis(db, actor, target))
  }

  ghost function RequestBasis(db: Db, ctx: Context, admin: bool, request: Request): Basis {
    if request.SpaceRead? then ReadBasis(db, ctx.actor, admin, request.space)
    else if !ScopeWithin(db, ctx.ceiling, request) then NO_BASIS
    else
      var space := db.scopes[request].space;
      var found := ContributorGrants(db.grants, ctx.actor, space);
      if request.RelationshipEnd? && !admin && found != {} && MayRead(db.spaces, db.grants, ctx.actor, admin, space)
      then Both(ReadBasis(db, ctx.actor, admin, space), Basis({}, {Least(found)}, {}))
      else ReadBasis(db, ctx.actor, admin, space)
  }

  ghost function BatchBasis(db: Db, ctx: Context, admin: bool, requests: seq<Request>): Basis {
    if |requests| == 0 then NO_BASIS
    else Both(BatchBasis(db, ctx, admin, requests[..|requests| - 1]), RequestBasis(db, ctx, admin, requests[|requests| - 1]))
  }

  ghost function TokensOn(db: Db, grants: set<Id>): set<Token> {
    set g | g in grants && g in db.grants :: Token(g, db.grants[g].resource)
  }

  lemma TokensOnOne(db: Db, g: Id)
    requires g in db.grants
    ensures TokensOn(db, {g}) == {Token(g, db.grants[g].resource)} && TokensOn(db, {}) == {}
  {
  }

  lemma TokensOnBoth(db: Db, a: set<Id>, b: set<Id>)
    ensures TokensOn(db, a + b) == TokensOn(db, a) + TokensOn(db, b)
  {
  }

  /** `rec'` is `rec` and the rows and paths of `basis`, as they are in `db`. */
  ghost predicate Adds(db: Db, rec: Record, rec': Record, basis: Basis) {
    && Agrees(rec', db)
    && rec'.spaces.Keys == rec.spaces.Keys + basis.spaces
    && rec'.grants.Keys == rec.grants.Keys + basis.grants
    && rec'.paths.Keys == rec.paths.Keys + basis.paths
  }

  lemma AddsBoth(db: Db, a: Record, b: Record, c: Record, first: Basis, second: Basis)
    requires Adds(db, a, b, first) && Adds(db, b, c, second)
    ensures Adds(db, a, c, Both(first, second))
  {
  }

  lemma {:induction false} WithRowsAdds(db: Db, rec: Record, ids: seq<Id>)
    requires Agrees(rec, db) && forall id | id in ids :: id in db.spaces
    ensures Adds(db, rec, WithRows(rec, ids, db.spaces), Basis(set id | id in ids, {}, {}))
  {
    if |ids| > 0 {
      WithRowsAdds(db, rec, ids[..|ids| - 1]);
      assert forall id | id in ids :: id == ids[|ids| - 1] || id in ids[..|ids| - 1];
    }
  }

  lemma ConfirmAfterPathAdds(db: Db, at: nat, actor: Actor, g: Id, space: Id, rec: Record)
    requires Agrees(rec, db) && IsDirect(db, g, actor, space)
    ensures var o := ConfirmAfterPath(db, at, actor, g, space, rec);
            Adds(db, rec, o.rec, Basis({}, {g}, {})) && o.result == Some(Token(g, space))
  {
  }

  lemma ConfirmInheritedAdds(history: History, at: nat, db: Db, actor: Actor, target: Id, g: Id, space: Id, rec: Record)
    requires Agrees(rec, db) && history(at) == db && history(at + 1) == db
    requires IsDirect(db, g, actor, space) && LoadPath(db.spaces, target, space).Some?
    ensures var o := ConfirmInherited(history, at, actor, target, g, space, rec);
            Adds(db, rec, o.rec, InheritedBasis(db, target, g)) && o.result == Some(Token(g, space)) && at <= o.next
  {
    var path := LoadPath(db.spaces, target, space).value;
    var noted := rec.(paths := rec.paths[(target, space) := path]);
    assert Adds(db, rec, noted, Basis({}, {}, {(target, space)}));
    assert forall id | id in path :: Live(db.spaces, id);
    WithRowsAdds(db, noted, path);
    var walked := WithRows(noted, path, db.spaces);
    assert WithPath(rec, (target, space), path, db.spaces) == walked;
    ConfirmAfterPathAdds(db, at + 1, actor, g, space, walked);
    ThreeAdds(db, rec, noted, walked, ConfirmAfterPath(db, at + 1, actor, g, space, walked).rec, (target, space), path, g);
  }

  lemma ThreeAdds(db: Db, rec: Record, noted: Record, walked: Record, rec': Record, key: (Id, Id), path: seq<Id>, g: Id)
    requires Adds(db, rec, noted, Basis({}, {}, {key})) && Adds(db, noted, walked, Basis(set id | id in path, {}, {}))
    requires Adds(db, walked, rec', Basis({}, {g}, {}))
    ensures Adds(db, rec, rec', Basis(set id | id in path, {g}, {key}))
  {
  }

  lemma TryDirectAdds(history: History, at: nat, db: Db, actor: Actor, target: Id, rec: Record)
    requires history(at) == db && history(at + 1) == db && Agrees(rec, db)
    ensures var direct := DirectGrants(db.grants, actor, target);
            TryDirect(history, at, actor, target, rec) ==
            if direct == {} then Outcome(rec, None, at + 1)
            else Outcome(WithGrant(rec, Least(direct), db.grants[Least(direct)]), Some(Token(Least(direct), target)), at + 2)
  {
  }

  lemma TryInheritedAdds(history: History, asked: nat, at: nat, db: Db, actor: Actor, target: Id, rec: Record)
    requires history(asked) == db && history(at) == db && history(at + 1) == db && Agrees(rec, db) && Live(db.spaces, target)
    requires DirectGrants(db.grants, actor, target) == {}
    ensures var o := TryInherited(history, asked, at, actor, target, rec);
            && Adds(db, rec, o.rec, GrantBasis(db, actor, target)) && at <= o.next
            && (o.result.Some? <==> InheritedGrants(db.spaces, db.grants, actor, target) != {})
            && Tokens(o.result) == TokensOn(db, GrantBasis(db, actor, target).grants)
  {
    var inherited := InheritedGrants(db.spaces, db.grants, actor, target);
    if inherited != {} {
      if db.spaces[target].restricted {
        RestrictedInheritsNothing(db.spaces, db.grants, actor, target);
      } else {
        NearestHasPath(db.spaces, db.grants, actor, target);
        var g := Nearest(inherited).1;
        ConfirmInheritedAdds(history, at, db, actor, target, g, db.grants[g].resource, rec);
        TokensOnOne(db, g);
      }
    }
  }

  ghost predicate GrantsByRule(db: Db, actor: Actor, target: Id, rec: Record, o: Outcome<Readability>) {
    && Adds(db, rec, o.rec, GrantBasis(db, actor, target))
    && (IsAllowed(o.result) <==> DirectGrants(db.grants, actor, target) != {} || InheritedGrants(db.spaces, db.grants, actor, target) != {})
    && Tokens(o.result.token) == TokensOn(db, GrantBasis(db, actor, target).grants)
  }

  ghost predicate ReadsByRule(db: Db, actor: Actor, admin: bool, target: Id, rec: Record, o: Outcome<Readability>) {
    && Adds(db, rec, o.rec, ReadBasis(db, actor, admin, target))
    && (IsAllowed(o.result) <==> MayRead(db.spaces, db.grants, actor, admin, target))
    && Tokens(o.result.token) == TokensOn(db, ReadBasis(db, actor, admin, target).grants)
  }

  /** In an unchanging database reading answers by the rule, and records exactly the basis of the answer. */
  lemma ReadByGrantAdds(history: History, at: nat, db: Db, actor: Actor, target: Id, rec: Record)
    requires Steady(history, at, db) && Agrees(rec, db) && Live(db.spaces, target)
    ensures GrantsByRule(db, actor, target, rec, ReadByGrant(history, at, actor, target, rec)) && at <= ReadByGrant(history, at, actor, target, rec).next
  {
    assert history(at) == db && history(at + 1) == db && history(at + 2) == db;
    var direct := DirectGrants(db.grants, actor, target);
    TryDirectAdds(history, at, db, actor, target, rec);
    if direct == {} {
      TryInheritedAdds(history, at, at + 1, db, actor, target, rec);
      InheritedByRule(db, actor, target, rec, TryInherited(history, at, at + 1, actor, target, rec));
    } else {
      DirectByRule(db, actor, target, rec, at + 2);
    }
  }

  lemma InheritedByRule(db: Db, actor: Actor, target: Id, rec: Record, o: Outcome<Option<Token>>)
    requires Adds(db, rec, o.rec, GrantBasis(db, actor, target)) && DirectGrants(db.grants, actor, target) == {}
    requires o.result.Some? <==> InheritedGrants(db.spaces, db.grants, actor, target) != {}
    requires Tokens(o.result) == TokensOn(db, GrantBasis(db, actor, target).grants)
    ensures GrantsByRule(db, actor, target, rec,
                         Outcome(o.rec, Readability(if o.result.Some? then InheritedGrant else AccessDenied, o.result), o.next))
  {
  }

  lemma DirectByRule(db: Db, actor: Actor, target: Id, rec: Record, next: nat)
    requires Agrees(rec, db) && DirectGrants(db.grants, actor, target) != {}
    ensures var g := Least(DirectGrants(db.grants, actor, target));
            GrantsByRule(db, actor, target, rec, Outcome(WithGrant(rec, g, db.grants[g]), Readability(DirectGrant, Some(Token(g, target))), next))
  {
    TokensOnOne(db, Least(DirectGrants(db.grants, actor, target)));
  }

  lemma ReadAdds(history: History, at: nat, db: Db, actor: Actor, admin: bool, target: Id, rec: Record)
    requires Steady(history, at, db) && Agrees(rec, db)
    ensures ReadsByRule(db, actor, admin, target, rec, Read(history, at, actor, admin, target, rec)) && at <= Read(history, at, actor, admin, target, rec).next
  {
    assert history(at) == db && history(at + 1) == db;
    if Live(db.spaces, target) {
      var rec' := WithSpace(rec, target, db.spaces[target]);
      TargetAdds(db, rec, target);
      if !admin && !db.spaces[target].kind.WorkspaceRoot? {
        ReadByGrantAdds(history, at + 1, db, actor, target, rec');
        GrantedReadByRule(db, actor, target, rec, rec', ReadByGrant(history, at + 1, actor, target, rec'));
      }
    }
  }

  lemma TargetAdds(db: Db, rec: Record, target: Id)
    requires Agrees(rec, db) && Live(db.spaces, target)
    ensures Adds(db, rec, WithSpace(rec, target, db.spaces[target]), Basis({target}, {}, {}))
    ensures TokensOn(db, {}) == {}
  {
  }

  lemma GrantedReadByRule(db: Db, actor: Actor, target: Id, rec: Record, rec': Record, o: Outcome<Readability>)
    requires Live(db.spaces, target) && !db.spaces[target].kind.WorkspaceRoot?
    requires Adds(db, rec, rec', Basis({target}, {}, {})) && GrantsByRule(db, actor, target, rec', o)
    ensures ReadsByRule(db, actor, false, target, rec, o)
  {
    AddsBoth(db, rec, rec', o.rec, Basis({target}, {}, {}), GrantBasis(db, actor, target));
    assert {} + GrantBasis(db, actor, target).grants == GrantBasis(db, actor, target).grants;
  }

  lemma ContributeAdds(db: Db, actor: Actor, admin: bool, space: Id, rec: Record)
    requires Agrees(rec, db)
    ensures var (rec', verdict) := Contribute(db, actor, admin, space, rec);
            var found := ContributorGrants(db.grants, actor, space);
            && (verdict.allowed <==> admin || found != {})
            && Adds(db, rec, rec', if admin || found == {} then NO_BASIS else Basis({}, {Least(found)}, {}))
            && verdict.tokens == TokensOn(db, if admin || found == {} then {} else {Least(found)})
  {
  }

  /** The decision on one request in one state of the database. */
  ghost predicate DecidesByRule(db: Db, ctx: Context, admin: bool, request: Request, rec: Record, o: Outcome<Verdict>) {
    && Adds(db, rec, o.rec, RequestBasis(db, ctx, admin, request))
    && o.result == Verdict(RequestAllowed(db, ctx, admin, request), TokensOn(db, RequestBasis(db, ctx, admin, request).grants))
  }

  lemma DecideAfterReadAdds(history: History, db: Db, ctx: Context, admin: bool, request: Request, space: Id, rec: Record, read: Outcome<Readability>)
    requires !request.SpaceRead? && ScopeWithin(db, ctx.ceiling, request) && db.scopes[request].space == space
    requires history(read.next) == db
    requires ReadsByRule(db, ctx.actor, admin, space, rec, read)
    ensures DecidesByRule(db, ctx, admin, request, rec, DecideAfterRead(history, ctx, admin, request, space, read))
    ensures read.next <= DecideAfterRead(history, ctx, admin, request, space, read).next
  {
    if IsAllowed(read.result) && request.RelationshipEnd? {
      ContributeAdds(db, ctx.actor, admin, space, read.rec);
      var found := ContributorGrants(db.grants, ctx.actor, space);
      if !admin && found != {} {
        AddsBoth(db, rec, read.rec, Contribute(db, ctx.actor, admin, space, read.rec).0,
                 ReadBasis(db, ctx.actor, admin, space), Basis({}, {Least(found)}, {}));
        TokensOnBoth(db, ReadBasis(db, ctx.actor, admin, space).grants, {Least(found)});
      }
    }
  }

  lemma DecideInScopeAdds(history: History, at: nat, db: Db, ctx: Context, admin: bool, request: Request, space: Id, rec: Record)
    requires Steady(history, at, db) && Agrees(rec, db)
    requires !request.SpaceRead? && ScopeWithin(db, ctx.ceiling, request) && db.scopes[request].space == space
    ensures var o := DecideAfterRead(history, ctx, admin, request, space, Read(history, at, ctx.actor, admin, space, rec));
            DecidesByRule(db, ctx, admin, request, rec, o) && at <= o.next
  {
    ReadAdds(history, at, db, ctx.actor, admin, space, rec);
    DecideAfterReadAdds(history, db, ctx, admin, request, space, rec, Read(history, at, ctx.actor, admin, space, rec));
  }

  lemma SpaceReadAdds(history: History, at: nat, db: Db, ctx: Context, admin: bool, target: Id, rec: Record)
    requires Steady(history, at, db) && Agrees(rec, db)
    ensures var o := ReadVerdict(Read(history, at, ctx.actor, admin, target, rec));
            DecidesByRule(db, ctx, admin, SpaceRead(target), rec, o) && at <= o.next
  {
    ReadAdds(history, at, db, ctx.actor, admin, target, rec);
  }

  lemma DecideAdds(history: History, at: nat, db: Db, ctx: Context, admin: bool, request: Request, rec: Record)
    requires Steady(history, at, db) && Agrees(rec, db)
    ensures var o := Decide(history, at, ctx, admin, request, rec); DecidesByRule(db, ctx, admin, request, rec, o) && at <= o.next
  {
    assert history(at) == db;
    if request.SpaceRead? {
      SpaceReadAdds(history, at, db, ctx, admin, request.space, rec);
    } else if ScopeWithin(db, ctx.ceiling, request) {
      DecideInScopeAdds(history, at + 1, db, ctx, admin, request, db.scopes[request].space, rec);
    }
  }

  /** The verdicts of a whole batch in one state of the database. */
  ghost predicate VerdictsByRule(db: Db, ctx: Context, admin: bool, requests: seq<Request>, verdicts: seq<Verdict>) {
    && |verdicts| == |requests|
    && forall k | 0 <= k < |requests| ::
         verdicts[k] == Verdict(RequestAllowed(db, ctx, admin, requests[k]), TokensOn(db, RequestBasis(db, ctx, admin, requests[k]).grants))
  }

  /** What an evaluation records and answers in one state of the database. */
  ghost predicate EvaluationByRule(db: Db, ctx: Context, admin: bool, requests: seq<Request>, o: Outcome<seq<Verdict>>) {
    Adds(db, EMPTY, o.rec, BatchBasis(db, ctx, admin, requests)) && VerdictsByRule(db, ctx, admin, requests, o.result)
  }

  lemma {:induction false} EvaluateAdds(history: History, at: nat, db: Db, ctx: Context, admin: bool, requests: seq<Request>)
    requires Steady(history, at, db)
    ensures EvaluationByRule(db, ctx, admin, requests, EvaluateAll(history, at, ctx, admin, requests))
    ensures at <= EvaluateAll(history, at, ctx, admin, requests).next
    decreases |requests|
  {
    if |requests| > 0 {
      var front, request := requests[..|requests| - 1], requests[|requests| - 1];
      EvaluateAdds(history, at, db, ctx, admin, front);
      var before := EvaluateAll(history, at, ctx, admin, front);
      DecideAdds(history, before.next, db, ctx, admin, request, before.rec);
      AddsBoth(db, EMPTY, before.rec, Decide(history, before.next, ctx, admin, request, before.rec).rec,
               BatchBasis(db, ctx, admin, front), RequestBasis(db, ctx, admin, request));
    }
  }

  lemma AddsDetermines(db: Db, rec: Record, a: Record, b: Record, basis: Basis)
    requires Adds(db, rec, a, basis) && Adds(db, rec, b, basis)
    ensures a == b
  {
    assert forall key | key in a.paths :: Some(a.paths[key]) == Some(b.paths[key]);
    assert a.spaces == b.spaces && a.grants == b.grants && a.paths == b.paths;
  }

  /** The rule determines the outcome: a second evaluation records and answers the same. */
  lemma EvaluateRepeats(db: Db, ctx: Context, admin: bool, requests: seq<Request>, o: Outcome<seq<Verdict>>, o': Outcome<seq<Verdict>>)
    requires EvaluationByRule(db, ctx, admin, requests, o) && EvaluationByRule(db, ctx, admin, requests, o')
    ensures o.rec == o'.rec && o.result == o'.result
  {
    AddsDetermines(db, EMPTY, o.rec, o'.rec, BatchBasis(db, ctx, admin, requests));
  }

  // ----- Doing it -----

  method DiscoverGrant(db: Db, actor: Actor, g: Id, space: Id, d: Discovery) returns (token: Option<Token>)
    modifies d
    ensures (d.View(), token) == ConfirmGrant(db, old(d.View()), actor, g, space)
  {
    if !IsDirect(db, g, actor, space) {
      return None;
    }
    d.RecordGrant(g, db.grants[g]);
    token := if d.inconsistent then None else Some(Token(g, space));
  }

  method DiscoverInherited(history: History, at: nat, actor: Actor, target: Id, g: Id, space: Id, d: Discovery)
    returns (token: Option<Token>, next: nat)
    modifies d
    ensures Outcome(d.View(), token, next) == ConfirmInherited(history, at, actor, target, g, space, old(d.View()))
  {
    var path := LoadPath(history(at).spaces, target, space);
    if path.None? {
      return None, at + 1;
    }
    d.RecordPath((target, space), path.value, history(at).spaces);
    if d.inconsistent {
      return None, at + 1;
    }
    token := DiscoverGrant(history(at + 1), actor, g, space, d);
    next := at + 2;
  }

  method CanRead(history: History, at: nat, actor: Actor, admin: bool, target: Id, d: Discovery) returns (r: Readability, next: nat)
    modifies d
    ensures Outcome(d.View(), r, next) == Read(history, at, actor, admin, target, old(d.View()))
  {
    if !Live(history(at).spaces, target) {
      return Readability(SpaceNotFound, None), at + 1;
    }
    d.RecordSpace(target, history(at).spaces[target]);
    if d.inconsistent {
      return Readability(AccessDenied, None), at + 1;
    }
    if admin {
      return Readability(AdminRead, None), at + 1;
    }
    var db := history(at + 1);
    if !Live(db.spaces, target) {
      return Readability(SpaceNotFound, None), at + 2;
    }
    if db.spaces[target].kind.WorkspaceRoot? {
      return Readability(RootRead, None), at + 2;
    }
    next := at + 2;
    var direct := FirstDirect(db.grants, actor, target);
    var token: Option<Token> := None;
    if direct.Some? {
      token := DiscoverGrant(history(next), actor, direct.value, target, d);
      next := next + 1;
      if token.Some? {
        return Readability(DirectGrant, token), next;
      }
    }
    var inherited := FirstInherited(db.spaces, db.grants, actor, target);
    if !db.spaces[target].restricted && inherited.Some? {
      NearestHasPath(db.spaces, db.grants, actor, target);
      token, next := DiscoverInherited(history, next, actor, target, inherited.value, db.grants[inherited.value].resource, d);
    }
    r := Readability(if token.Some? then InheritedGrant else AccessDenied, token);
  }

  method Contributor(db: Db, actor: Actor, admin: bool, space: Id, d: Discovery) returns (verdict: Verdict)
    modifies d
    ensures (d.View(), verdict) == Contribute(db, actor, admin, space, old(d.View()))
  {
    if admin {
      return Verdict(true, {});
    }
    var found := ContributorGrants(db.grants, actor, space);
    if found == {} {
      return Verdict(false, {});
    }
    LeastExists(found);
    var g :| g in found && forall other | other in found :: g <= other;
    d.RecordGrant(g, db.grants[g]);
    verdict := if d.inconsistent then Verdict(false, {}) else Verdict(true, {Token(g, space)});
  }

  method DecideRequest(history: History, at: nat, ctx: Context, admin: bool, request: Request, d: Discovery) returns (verdict: Verdict, next: nat)
    modifies d
    ensures Outcome(d.View(), verdict, next) == Decide(history, at, ctx, admin, request, old(d.View()))
  {
    var r: Readability;
    if request.SpaceRead? {
      r, next := CanRead(history, at, ctx.actor, admin, request.space, d);
      return Verdict(IsAllowed(r), Tokens(r.token)), next;
    }
    if !ScopeWithin(history(at), ctx.ceiling, request) {
      return Verdict(false, {}), at + 1;
    }
    var space := history(at).scopes[request].space;
    r, next := CanRead(history, at + 1, ctx.actor, admin, space, d);
    if !IsAllowed(r) || !request.RelationshipEnd? {
      return Verdict(IsAllowed(r), Tokens(r.token)), next;
    }
    var contributor := Contributor(history(next), ctx.actor, admin, space, d);
    return Verdict(contributor.allowed, Tokens(r.token) + contributor.tokens), next + 1;
  }

  method Evaluate(history: History, at: nat, ctx: Context, admin: bool, requests: seq<Request>, d: Discovery)
    returns (verdicts: seq<Verdict>, next: nat)
    requires d.View() == EMPTY
    modifies d
    ensures Outcome(d.View(), verdicts, next) == EvaluateAll(history, at, ctx, admin, requests)
  {
    verdicts, next := [], at;
    for n := 0 to |requests|
      invariant Outcome(d.View(), verdicts, next) == EvaluateAll(history, at, ctx, admin, requests[..n])
    {
      var verdict;
      verdict, next := DecideRequest(history, next, ctx, admin, requests[n], d);
      verdicts := verdicts + [verdict];
      assert requests[..n + 1][..n] == requests[..n];
    }
    assert requests[..|requests|] == requests;
  }

  /** The evaluation by its properties alone. */
  method EvaluateBatch(history: History, at: nat, ctx: Context, admin: bool, requests: seq<Request>, d: Discovery, ghost steady: bool, ghost db: Db)
    returns (o: Outcome<seq<Verdict>>)
    requires d.View() == EMPTY && (steady ==> Steady(history, at, db))
    modifies d
    ensures o.rec == d.View() && EvaluationSeen(history, at, ctx, admin, requests, o)
    ensures steady ==> EvaluationByRule(db, ctx, admin, requests, o)
  {
    EvaluateSees(history, at, ctx, admin, requests);
    if steady {
      EvaluateAdds(history, at, db, ctx, admin, requests);
    }
    var verdicts, next := Evaluate(history, at, ctx, admin, requests, d);
    o := Outcome(d.View(), verdicts, next);
  }

  // ----- The batch -----

  /** The rows the locking statement for Spaces returns: those asked for that are live. */
  function LockedSpaces(db: Db, ids: set<Id>): Spaces {
    map id | id in ids && Live(db.spaces, id) :: db.spaces[id]
  }

  function LockedGrants(db: Db, ids: set<Id>, actor: Actor): Grants {
    map g | g in ids && g in db.grants && Held(db.grants[g], actor) :: db.grants[g]
  }

  /** Sorted out: no request twice, exactly one relationship ended, persons read at that relationship. */
  method NormalizeRequests(requests: seq<Request>) returns (normalized: Option<seq<Request>>)
    ensures normalized.Some? ==>
              && (forall r :: r in normalized.value <==> r in requests)
              && (forall i, j | 0 <= i < j < |normalized.value| :: normalized.value[i] != normalized.value[j])
              && exists relationship :: OneRelationship(requests, relationship)
    ensures normalized.None? ==> forall relationship :: !OneRelationship(requests, relationship)
  {
    var unique: seq<Request> := [];
    for n := 0 to |requests|
      invariant forall r :: r in unique <==> r in requests[..n]
      invariant forall i, j | 0 <= i < j < |unique| :: unique[i] != unique[j]
    {
      if requests[n] !in unique {
        unique := unique + [requests[n]];
      }
      assert requests[..n + 1] == requests[..n] + [requests[n]];
    }
    assert requests[..|requests|] == requests;
    var ends := set r | r in unique && r.RelationshipEnd?;
    if |ends| != 1 {
      assert forall relationship | OneRelationship(requests, relationship) :: ends == {RelationshipEnd(relationship)};
      return None;
    }
    var end :| end in ends;
    SingletonIs(ends, end);
    if exists r | r in unique :: r.PersonRead? && r.relationship != end.relationship {
      assert forall relationship | OneRelationship(requests, relationship) :: RelationshipEnd(relationship) in ends;
      return None;
    }
    assert forall r | r in requests && r.RelationshipEnd? :: r in ends;
    assert OneRelationship(requests, end.relationship);
    normalized := Some(unique);
  }

  lemma SingletonIs(ends: set<Request>, end: Request)
    requires |ends| == 1 && end in ends
    ensures ends == {end}
  {
    assert |ends - {end}| == 0;
    assert ends == (ends - {end}) + {end};
  }

  ghost predicate OneRelationship(requests: seq<Request>, relationship: Id) {
    && RelationshipEnd(relationship) in requests
    && (forall r | r in requests && r.RelationshipEnd? :: r.relationship == relationship)
    && (forall r | r in requests && r.PersonRead? :: r.relationship == relationship)
  }

  /** The four locking statements, each compared with what was expected. */
  method TakeLocks(history: History, at: nat, ctx: Context, policy: Option<PolicyRow>, actor: Option<MemberRow>, spaces: Spaces, grants: Grants)
    returns (ok: bool, locks: Locks)
    requires policy.Some? && actor.Some?
    ensures ok ==>
              && locks.policyAt == at && ActivePolicy(history(at)) == policy
              && locks.memberAt == at + 1 && ExactActor(history(at + 1), ctx) == actor
              && LockedWith(history, locks, at + 4, spaces, grants)
    ensures ok <==>
              && ActivePolicy(history(at)) == policy && ExactActor(history(at + 1), ctx) == actor
              && LockedSpaces(history(at + 2), spaces.Keys) == spaces
              && LockedGrants(history(at + 3), grants.Keys, ctx.actor) == grants
  {
    ok, locks := false, Locks(at, at + 1, map[], map[]);
    var lockedPolicy, lockedActor := ActivePolicy(history(at)), ExactActor(history(at + 1), ctx);
    if lockedPolicy != policy || lockedActor != actor {
      return;
    }
    var lockedSpaces := LockedSpaces(history(at + 2), spaces.Keys);
    var lockedGrants := LockedGrants(history(at + 3), grants.Keys, ctx.actor);
    if lockedSpaces != spaces || lockedGrants != grants {
      return;
    }
    locks := Locks(at, at + 1, map id | id in spaces.Keys :: at + 2, map g | g in grants.Keys :: at + 3);
    assert forall id | id in spaces :: id in lockedSpaces;
    assert forall g | g in grants :: g in lockedGrants;
    ok := true;
  }

  ghost predicate EachSupported(history: History, from: nat, next: nat, rec: Record, ctx: Context, admin: bool, requests: seq<Request>) {
    forall r | r in requests :: SupportsRequest(history, from, next, rec.spaces.Keys, rec.grants.Keys, ctx, admin, r)
  }

  /**
   What is known once a batch is allowed, `rec` being what either evaluation recorded; see
   AuthorityRules.AuthorityLasts for what follows.
   */
  ghost predicate Granted(history: History, at: nat, first: nat, from: nat, next: nat, locks: Locks, ctx: Context, role: Role,
                          requests: seq<Request>, rec: Record)
  {
    && at <= first <= from <= next
    && ReadBetween(history, at, first, rec, ctx.actor) && ReadBetween(history, from, next, rec, ctx.actor)
    && AuthorityLocked(history, locks, from, ctx, role, rec.spaces, rec.grants)
    && EachSupported(history, from, next, rec, ctx, IsAdmin(role), requests)
  }

  /** What the batch comes to in one state of the database. */
  ghost predicate BatchAllowed(db: Db, ctx: Context, requests: seq<Request>) {
    && (exists relationship :: OneRelationship(requests, relationship))
    && ActivePolicy(db).Some? && ExactActor(db, ctx).Some?
    && forall r | r in requests :: RequestAllowed(db, ctx, IsAdmin(ExactActor(db, ctx).value.role), r)
  }

  /** The same, said in rows. */
  ghost predicate BatchAllowedByRows(db: Db, ctx: Context, requests: seq<Request>) {
    && (exists relationship :: OneRelationship(requests, relationship))
    && PolicyIsActive(db)
    && exists role :: ActsAs(db, ctx, role) && forall r | r in requests :: AllowedByRows(db, ctx, Administers(role), r)
  }

  lemma BatchAllowedMeaning(db: Db, ctx: Context, requests: seq<Request>)
    ensures BatchAllowed(db, ctx, requests) <==> BatchAllowedByRows(db, ctx, requests)
  {
    ActorMeaning(db, ctx);
    if ExactActor(db, ctx).Some? {
      var role := ExactActor(db, ctx).value.role;
      assert ActsAs(db, ctx, role);
      forall r | r in requests
        ensures RequestAllowed(db, ctx, IsAdmin(role), r) <==> AllowedByRows(db, ctx, Administers(role), r)
      {
        RequestAllowedMeaning(db, ctx, IsAdmin(role), r);
      }
    }
  }

  /** The final evaluation read the scope row of every such request, and found nothing above the ceiling. */
  ghost predicate CeilingHeld(history: History, from: nat, next: nat, ceiling: AccessClass, requests: seq<Request>) {
    forall r | r in requests && !r.SpaceRead? :: exists i | from <= i < next :: WithinCeiling(history(i), ceiling, r)
  }

  lemma GrantedMeaning(history: History, at: nat, first: nat, from: nat, next: nat, locks: Locks, ctx: Context, role: Role,
                       requests: seq<Request>, rec: Record)
    requires Granted(history, at, first, from, next, locks, ctx, role, requests, rec)
    ensures PolicyIsActive(history(locks.policyAt)) && ActsAs(history(locks.memberAt), ctx, role)
    ensures CeilingHeld(history, from, next, ctx.ceiling, requests)
  {
    ActorMeaning(history(locks.policyAt), ctx);
    ActorMeaning(history(locks.memberAt), ctx);
    forall r | r in requests && !r.SpaceRead?
      ensures exists i | from <= i < next :: WithinCeiling(history(i), ctx.ceiling, r)
    {
      assert SupportsRequest(history, from, next, rec.spaces.Keys, rec.grants.Keys, ctx, IsAdmin(role), r);
      var i, space :| from <= i < next && ByScope(history, i, ctx.ceiling, r, space);
      ScopeMeaning(history(i), ctx.ceiling, r);
    }
  }

  lemma FaithfulWider(history: History, start: nat, start': nat, end: nat, rec: Record, actor: Actor)
    requires ReadBetween(history, start, end, rec, actor) && start' <= start
    ensures ReadBetween(history, start', end, rec, actor)
  {
  }

  lemma EachRequestSupported(history: History, from: nat, next: nat, rec: Record, ctx: Context, admin: bool, requests: seq<Request>, normalized: seq<Request>)
    requires forall r :: r in normalized <==> r in requests
    requires AllSupported(history, from, next, rec, ctx, admin, normalized)
    ensures EachSupported(history, from, next, rec, ctx, admin, requests)
  {
    forall r | r in requests
      ensures SupportsRequest(history, from, next, rec.spaces.Keys, rec.grants.Keys, ctx, admin, r)
    {
      assert r in normalized;
      var k :| 0 <= k < |normalized| && normalized[k] == r;
    }
  }

  lemma VerdictsDecideBatch(db: Db, ctx: Context, admin: bool, requests: seq<Request>, normalized: seq<Request>, verdicts: seq<Verdict>)
    requires forall r :: r in normalized <==> r in requests
    requires VerdictsByRule(db, ctx, admin, normalized, verdicts)
    ensures AllAllowed(verdicts) <==> forall r | r in requests :: RequestAllowed(db, ctx, admin, r)
  {
    if AllAllowed(verdicts) {
      forall r | r in requests
        ensures RequestAllowed(db, ctx, admin, r)
      {
        assert r in normalized;
        var k :| 0 <= k < |normalized| && normalized[k] == r;
        assert verdicts[k].allowed;
      }
    } else {
      var k :| 0 <= k < |verdicts| && !verdicts[k].allowed;
      assert normalized[k] in requests;
    }
  }

  /** In an unchanging database the locking statements return the rows recorded. */
  lemma RecordedRowsLockable(history: History, at: nat, end: nat, db: Db, rec: Record, actor: Actor)
    requires Steady(history, at, db) && ReadBetween(history, at + 2, end, rec, actor)
    ensures LockedSpaces(db, rec.spaces.Keys) == rec.spaces && LockedGrants(db, rec.grants.Keys, actor) == rec.grants
  {
    forall id | id in rec.spaces
      ensures Live(db.spaces, id) && db.spaces[id] == rec.spaces[id]
    {
      var i :| at + 2 <= i < end && SpaceSeen(history, i, id, rec.spaces[id]);
      assert history(i) == db;
    }
    forall g | g in rec.grants
      ensures g in db.grants && Held(db.grants[g], actor) && db.grants[g] == rec.grants[g]
    {
      var i :| at + 2 <= i < end && GrantSeen(history, i, g, rec.grants[g], actor);
      assert history(i) == db;
    }
  }

  /** The first half: policy and actor, first evaluation, locks. */
  method DiscoverAndLock(history: History, at: nat, ctx: Context, requests: seq<Request>, expected: Discovery, ghost steady: bool, ghost db: Db)
    returns (ok: bool, locks: Locks, role: Role, o: Outcome<seq<Verdict>>)
    requires expected.View() == EMPTY && (steady ==> Steady(history, at, db))
    modifies expected
    ensures ok ==>
              && expected.View() == o.rec && at <= o.next && ReadBetween(history, at, o.next, o.rec, ctx.actor)
              && AuthorityLocked(history, locks, o.next + 4, ctx, role, o.rec.spaces, o.rec.grants)
    ensures steady ==>
              (ok <==> && ActivePolicy(db).Some? && ExactActor(db, ctx).Some?
                       && forall r | r in requests :: RequestAllowed(db, ctx, IsAdmin(ExactActor(db, ctx).value.role), r))
    ensures ok ==> AllAllowed(o.result) && (steady ==> EvaluationByRule(db, ctx, IsAdmin(role), requests, o))
  {
    ok, locks, role, o := false, Locks(at, at, map[], map[]), OtherRole, Outcome(EMPTY, [], at);
    assert steady ==> history(at) == db && history(at + 1) == db;
    var policy, actor := ActivePolicy(history(at)), ExactActor(history(at + 1), ctx);
    if policy.None? || actor.None? {
      return;
    }
    role := actor.value.role;
    o := EvaluateBatch(history, at + 2, ctx, IsAdmin(role), requests, expected, steady, db);
    if steady {
      VerdictsDecideBatch(db, ctx, IsAdmin(role), requests, requests, o.result);
      RecordedRowsLockable(history, at, o.next, db, o.rec, ctx.actor);
    }
    if expected.inconsistent || !AllAllowed(o.result) {
      return;
    }
    FaithfulWider(history, at + 2, at, o.next, o.rec, ctx.actor);
    ok, locks := TakeLocks(history, o.next, ctx, policy, actor, expected.spaces, expected.grants);
  }

  /**
   `lockAndReauthorizeRelationshipAuthority`, from its first statement on. Whatever others write, an
   allowed batch is granted in the sense above; and while nobody else writes, the batch is allowed
   exactly when the rule allows each of its requests.
   */
  method LockAndReauthorize(history: History, at: nat, ctx: Context, requests: seq<Request>, expected: Discovery, final: Discovery, ghost db: Db)
    returns (allowed: bool, locks: Locks, role: Role, first: nat, from: nat, next: nat)
    requires expected != final && expected.View() == EMPTY && final.View() == EMPTY
    modifies expected, final
    ensures allowed ==> expected.View() == final.View() && Granted(history, at, first, from, next, locks, ctx, role, requests, final.View())
    ensures allowed ==>
              && PolicyIsActive(history(locks.policyAt)) && ActsAs(history(locks.memberAt), ctx, role)
              && CeilingHeld(history, from, next, ctx.ceiling, requests)
    ensures Steady(history, at, db) ==> (allowed <==> BatchAllowedByRows(db, ctx, requests))
  {
    BatchAllowedMeaning(db, ctx, requests);
    allowed, locks, role, first, from, next := false, Locks(at, at, map[], map[]), OtherRole, at, at, at;
    var normalized := NormalizeRequests(requests);
    if normalized.None? {
      return;
    }
    ghost var steady := Steady(history, at, db);
    var ok, evaluated;
    ok, locks, role, evaluated := DiscoverAndLock(history, at, ctx, normalized.value, expected, steady, db);
    if !ok {
      return;
    }
    first, from := evaluated.next, evaluated.next + 4;
    var current := EvaluateBatch(history, from, ctx, IsAdmin(role), normalized.value, final, steady, db);
    next := current.next;
    if steady {
      EvaluateRepeats(db, ctx, IsAdmin(role), normalized.value, evaluated, current);
    }
    if final.inconsistent || !AllAllowed(current.result) || final.View() != expected.View() || current.result != evaluated.result {
      return;
    }
    EachRequestSupported(history, from, next, current.rec, ctx, IsAdmin(role), requests, normalized.value);
    GrantedMeaning(history, at, first, from, next, locks, ctx, role, requests, current.rec);
    allowed := true;
  }

  // ----- A batch whose authority does not last -----

  const CALLER: Context := Context(Actor(10, 11), Confidential)
  const ENDING: Request := RelationshipEnd(7)
  const OPEN_SPACE: Space := Space(None, OrdinarySpace, Public, false, false)
  const CLOSED_SPACE: Space := Space(None, OrdinarySpace, Public, true, false)
  const CONTRIBUTION: Grant := Grant(true, 1, Membership(10), Relation.Contributor)

  /** The caller contributes to Space 1, which holds relationship 7; Space 2 is restricted and grants nothing. */
  const BEFORE: Db :=
    Db(Some(PolicyRow(20, true)), Some(MemberRow(10, 11, Some(12), OtherRole, true, true)),
       map[1 := OPEN_SPACE, 2 := CLOSED_SPACE], map[5 := CONTRIBUTION], map[ENDING := ScopeRow(1, Public)])

  /** Relationship 7 has moved to Space 2; nothing else has changed. */
  const AFTER: Db := BEFORE.(scopes := map[ENDING := ScopeRow(2, Public)])

  /** The move commits right after the batch's last statement. */
  const MOVED: History := (i: nat) => if i < 16 then BEFORE else AFTER

  const RECORDED: Record := Record(map[1 := OPEN_SPACE], map[5 := CONTRIBUTION], map[], false)

  const TAKEN: Locks := Locks(7, 8, map[1 := 9], map[5 := 10])

  lemma OneGrant(grants: set<Id>)
    requires grants == {5}
    ensures Least(grants) == 5
  {
  }

  lemma GrantsBefore()
    ensures DirectGrants(BEFORE.grants, CALLER.actor, 1) == {5} && ContributorGrants(BEFORE.grants, CALLER.actor, 1) == {5}
  {
  }

  lemma ReadBefore(at: nat)
    requires at + 3 <= 16
    ensures Read(MOVED, at, CALLER.actor, false, 1, EMPTY) == Outcome(RECORDED, Readability(DirectGrant, Some(Token(5, 1))), at + 3)
  {
    assert MOVED(at) == BEFORE && MOVED(at + 1) == BEFORE && MOVED(at + 2) == BEFORE;
    GrantsBefore();
    OneGrant({5});
    var rec := WithSpace(EMPTY, 1, OPEN_SPACE);
    assert ConfirmGrant(BEFORE, rec, CALLER.actor, 5, 1) == (RECORDED, Some(Token(5, 1)));
    assert TryDirect(MOVED, at + 1, CALLER.actor, 1, rec) == Outcome(RECORDED, Some(Token(5, 1)), at + 3);
  }

  lemma ContributeBefore()
    ensures Contribute(BEFORE, CALLER.actor, false, 1, RECORDED) == (RECORDED, Verdict(true, {Token(5, 1)}))
  {
    GrantsBefore();
    OneGrant({5});
    assert RECORDED.grants[5 := CONTRIBUTION] == RECORDED.grants;
    assert WithGrant(RECORDED, 5, BEFORE.grants[5]) == RECORDED;
  }

  lemma EvaluateOne(history: History, at: nat, ctx: Context, admin: bool, request: Request)
    ensures var o := Decide(history, at, ctx, admin, request, EMPTY);
            EvaluateAll(history, at, ctx, admin, [request]) == Outcome(o.rec, [o.result], o.next)
  {
    assert [request][..|[request]| - 1] == [];
    var before := EvaluateAll(history, at, ctx, admin, []);
    assert before == Outcome(EMPTY, [], at);
    var last := Decide(history, at, ctx, admin, request, EMPTY);
    assert before.result + [last.result] == [last.result];
  }

  /** Either evaluation of the batch allows it and records the Space and the grant. */
  lemma EvaluationBefore(at: nat)
    requires at + 5 <= 16
    ensures EvaluateAll(MOVED, at, CALLER, false, [ENDING]) == Outcome(RECORDED, [Verdict(true, {Token(5, 1)})], at + 5)
  {
    assert MOVED(at) == BEFORE && MOVED(at + 4) == BEFORE;
    ReadBefore(at + 1);
    ContributeBefore();
    assert {Token(5, 1)} + {Token(5, 1)} == {Token(5, 1)};
    assert ScopeWithin(BEFORE, CALLER.ceiling, ENDING) && BEFORE.scopes[ENDING].space == 1;
    assert Decide(MOVED, at, CALLER, false, ENDING, EMPTY) == Outcome(RECORDED, Verdict(true, {Token(5, 1)}), at + 5);
    EvaluateOne(MOVED, at, CALLER, false, ENDING);
  }

  lemma MovedLocksHold()
    ensures LocksHold(MOVED, TAKEN)
  {
  }

  lemma EvaluationSeenBefore(at: nat)
    requires at + 5 <= 16
    ensures ReadBetween(MOVED, at, at + 5, RECORDED, CALLER.actor)
    ensures AllSupported(MOVED, at, at + 5, RECORDED, CALLER, false, [ENDING])
  {
    EvaluationBefore(at);
    EvaluateSees(MOVED, at, CALLER, false, [ENDING]);
  }

  lemma MovedIsLocked()
    ensures AuthorityLocked(MOVED, TAKEN, 11, CALLER, OtherRole, RECORDED.spaces, RECORDED.grants)
  {
  }

  lemma MovedIsGranted()
    ensures Granted(MOVED, 0, 7, 11, 16, TAKEN, CALLER, OtherRole, [ENDING], RECORDED)
  {
    FirstReadsSeen();
    EndingIsSupported();
    MovedIsLocked();
  }

  lemma FirstReadsSeen()
    ensures ReadBetween(MOVED, 0, 7, RECORDED, CALLER.actor)
  {
    EvaluationSeenBefore(2);
    FaithfulWider(MOVED, 2, 0, 7, RECORDED, CALLER.actor);
  }

  lemma EndingIsSupported()
    ensures ReadBetween(MOVED, 11, 16, RECORDED, CALLER.actor)
    ensures EachSupported(MOVED, 11, 16, RECORDED, CALLER, false, [ENDING])
  {
    EvaluationSeenBefore(11);
    EachRequestSupported(MOVED, 11, 16, RECORDED, CALLER, false, [ENDING], [ENDING]);
  }

  /**
   A whole batch, from its first statement to its last: both evaluations allow it and record the
   same rows, all of them are locked in between and stay as they are; then only the scope row
   moves, and the relationship may no longer be ended.
   */
  lemma ScopeRowsAreNotLocked()
    ensures OneRelationship([ENDING], 7)
    ensures EvaluateAll(MOVED, 2, CALLER, false, [ENDING]) == Outcome(RECORDED, [Verdict(true, {Token(5, 1)})], 7)
    ensures EvaluateAll(MOVED, 11, CALLER, false, [ENDING]) == Outcome(RECORDED, [Verdict(true, {Token(5, 1)})], 16)
    ensures Granted(MOVED, 0, 7, 11, 16, TAKEN, CALLER, OtherRole, [ENDING], RECORDED) && LocksHold(MOVED, TAKEN)
    ensures RequestAllowed(MOVED(15), CALLER, false, ENDING) && !RequestAllowed(MOVED(16), CALLER, false, ENDING)
  {
    EndingIsOneRelationship();
    EvaluationBefore(2);
    EvaluationBefore(11);
    MovedIsGranted();
    MovedLocksHold();
    AllowedBeforeNotAfter();
  }

  lemma EndingIsOneRelationship()
    ensures OneRelationship([ENDING], 7)
  {
  }

  lemma AllowedBeforeNotAfter()
    ensures RequestAllowed(MOVED(15), CALLER, false, ENDING) && !RequestAllowed(MOVED(16), CALLER, false, ENDING)
  {
    assert MOVED(15) == BEFORE && MOVED(16) == AFTER;
    GrantsBefore();
    RestrictedInheritsNothing(AFTER.spaces, AFTER.grants, CALLER.actor, 2);
    assert DirectGrants(AFTER.grants, CALLER.actor, 2) == {};
  }
}
