/**
 The rule for a relationship request in one state of the database, what a transaction may have seen
 of the rows behind it while others write, and what share locks on those rows preserve. Each
 statement sees the database as of its own time: `history(i)` is what statement `i` sees.
 */
module AuthorityRules {
  import opened Wrappers
  import opened SpaceGrants

  datatype Role = OwnerRole | AdminRole | OtherRole

  datatype PolicyRow = PolicyRow(id: Id, active: bool)

  /** A membership joined with its user. */
  datatype MemberRow = MemberRow(membershipId: Id, userId: Id, personId: Option<Id>, role: Role, membershipActive: bool, userActive: bool)

  /** The Space a resource is in, and the resource's own class where its table has one (else `Public`). */
  datatype ScopeRow = ScopeRow(space: Id, ownClass: AccessClass)

  datatype Request =
    | SpaceRead(space: Id)
    | ResourceRead(resource: Id)
    | PersonRead(person: Id, relationship: Id)
    | RelationshipEnd(relationship: Id)

  datatype Db = Db(policy: Option<PolicyRow>, member: Option<MemberRow>, spaces: Spaces, grants: Grants, scopes: map<Request, ScopeRow>)

  type History = nat -> Db

  datatype Context = Context(actor: Actor, ceiling: AccessClass)

  predicate IsAdmin(role: Role) {
    role.OwnerRole? || role.AdminRole?
  }

  function Rank(c: AccessClass): nat {
    match c
    case Public => 0
    case Workspace => 1
    case Restricted => 2
    case Confidential => 3
  }

  function MaxClass(a: AccessClass, b: AccessClass): AccessClass {
    if Rank(a) >= Rank(b) then a else b
  }

  predicate CanReadDataClass(ceiling: AccessClass, c: AccessClass) {
    Rank(c) <= Rank(ceiling)
  }

  // ----- What a request needs -----

  function ContributorGrants(grants: Grants, actor: Actor, space: Id): set<Id> {
    set g | g in grants && IsContributorGrant(grants, g, actor, space)
  }

  predicate IsContributorGrant(grants: Grants, g: Id, actor: Actor, space: Id) {
    g in grants && Held(grants[g], actor) && grants[g].resource == space && !grants[g].relation.Viewer?
  }

  /** The scope row of a request, joined with its Space, within the caller's class ceiling. */
  predicate ScopeWithin(db: Db, ceiling: AccessClass, request: Request) {
    && request in db.scopes
    && db.scopes[request].space in db.spaces
    && CanReadDataClass(ceiling, MaxClass(db.scopes[request].ownClass, db.spaces[db.scopes[request].space].accessClass))
  }

  /** The rule for one request, in one state of the database. */
  predicate RequestAllowed(db: Db, ctx: Context, admin: bool, request: Request) {
    if request.SpaceRead? then MayRead(db.spaces, db.grants, ctx.actor, admin, request.space)
    else
      && ScopeWithin(db, ctx.ceiling, request)
      && MayRead(db.spaces, db.grants, ctx.actor, admin, db.scopes[request].space)
      && (request.RelationshipEnd? ==>
            admin || ContributorGrants(db.grants, ctx.actor, db.scopes[request].space) != {})
  }

  function ActivePolicy(db: Db): Option<PolicyRow> {
    if db.policy.Some? && db.policy.value.active then db.policy else None
  }

  /** The membership row of the context's own actor, if everything about it is in order. */
  function ExactActor(db: Db, ctx: Context): Option<MemberRow> {
    if db.member.Some? && var m := db.member.value;
         m.membershipId == ctx.actor.membershipId && m.userId == ctx.actor.userId && m.personId.Some?
         && m.membershipActive && m.userActive
    then db.member else None
  }

  // ----- The same, said in rows -----

  /** A grant better than a viewer's on this Space, for the actor's membership or user. */
  predicate LetsContribute(g: Grant, actor: Actor, space: Id) {
    && g.onSpace && g.resource == space
    && (g.subject == Membership(actor.membershipId) || g.subject == User(actor.userId))
    && (g.relation.Owner? || g.relation.Manager? || g.relation.Contributor?)
  }

  ghost predicate IsContributor(grants: Grants, actor: Actor, space: Id) {
    exists g | g in grants :: LetsContribute(grants[g], actor, space)
  }

  /** The request's scope row is there, and neither its own class nor its Space's is above the ceiling. */
  predicate WithinCeiling(db: Db, ceiling: AccessClass, request: Request) {
    && request in db.scopes
    && var scope := db.scopes[request];
       && scope.space in db.spaces
       && Rank(scope.ownClass) <= Rank(ceiling)
       && Rank(db.spaces[scope.space].accessClass) <= Rank(ceiling)
  }

  ghost predicate AllowedByRows(db: Db, ctx: Context, admin: bool, request: Request) {
    match request
    case SpaceRead(space) => MayReadByRows(db.spaces, db.grants, ctx.actor, admin, space)
    case _ =>
      && WithinCeiling(db, ctx.ceiling, request)
      && MayReadByRows(db.spaces, db.grants, ctx.actor, admin, db.scopes[request].space)
      && (request.RelationshipEnd? && !admin ==> IsContributor(db.grants, ctx.actor, db.scopes[request].space))
  }

  lemma ScopeMeaning(db: Db, ceiling: AccessClass, request: Request)
    ensures ScopeWithin(db, ceiling, request) <==> WithinCeiling(db, ceiling, request)
  {
  }

  lemma ContributorMeaning(grants: Grants, actor: Actor, space: Id)
    ensures ContributorGrants(grants, actor, space) != {} <==> IsContributor(grants, actor, space)
  {
    if g :| g in grants && LetsContribute(grants[g], actor, space) {
      assert g in ContributorGrants(grants, actor, space);
    }
    if g :| g in ContributorGrants(grants, actor, space) {
      assert LetsContribute(grants[g], actor, space);
    }
  }

  /** The rule the evaluation follows is the rule in rows. */
  lemma RequestAllowedMeaning(db: Db, ctx: Context, admin: bool, request: Request)
    ensures RequestAllowed(db, ctx, admin, request) <==> AllowedByRows(db, ctx, admin, request)
  {
    if request.SpaceRead? {
      MayReadMeaning(db.spaces, db.grants, ctx.actor, admin, request.space);
    } else {
      ScopeMeaning(db, ctx.ceiling, request);
      if request in db.scopes {
        MayReadMeaning(db.spaces, db.grants, ctx.actor, admin, db.scopes[request].space);
        ContributorMeaning(db.grants, ctx.actor, db.scopes[request].space);
      }
    }
  }

  /** The policy row is there and active. */
  predicate PolicyIsActive(db: Db) {
    db.policy.Some? && db.policy.value.active
  }

  /** The context's own membership and user, both active, a person, in this role. */
  predicate ActsAs(db: Db, ctx: Context, role: Role) {
    match db.member
    case None => false
    case Some(m) =>
      && m.membershipActive && m.userActive && m.personId.Some? && m.role == role
      && Actor(m.membershipId, m.userId) == ctx.actor
  }

  lemma ActorMeaning(db: Db, ctx: Context)
    ensures ActivePolicy(db).Some? <==> PolicyIsActive(db)
    ensures forall role :: ActsAs(db, ctx, role) <==> ExactActor(db, ctx).Some? && ExactActor(db, ctx).value.role == role
  {
  }

  /** Owners and administrators read and contribute everywhere. */
  predicate Administers(role: Role) {
    match role
    case OwnerRole => true
    case AdminRole => true
    case OtherRole => false
  }

  // ----- What one evaluation has seen -----

  ghost predicate SpaceSeen(history: History, i: nat, id: Id, row: Space) {
    Live(history(i).spaces, id) && history(i).spaces[id] == row
  }

  ghost predicate GrantSeen(history: History, i: nat, g: Id, row: Grant, actor: Actor) {
    g in history(i).grants && history(i).grants[g] == row && Held(row, actor)
  }

  /** Every recorded row was read by one of the statements from `start` up to `end`. */
  ghost predicate Faithful(history: History, start: nat, end: nat, spaces: Spaces, grants: Grants, actor: Actor) {
    && (forall id | id in spaces :: exists i | start <= i < end :: SpaceSeen(history, i, id, spaces[id]))
    && (forall g | g in grants :: exists i | start <= i < end :: GrantSeen(history, i, g, grants[g], actor))
  }

  ghost predicate ByRoot(history: History, i: nat, target: Id) {
    Live(history(i).spaces, target) && history(i).spaces[target].kind.WorkspaceRoot?
  }

  ghost predicate ByDirect(history: History, i: nat, g: Id, actor: Actor, target: Id) {
    g in history(i).grants && Held(history(i).grants[g], actor) && history(i).grants[g].resource == target
  }

  ghost predicate ByPath(history: History, i: nat, space: Id, keys: set<Id>, target: Id) {
    var path := LoadPath(history(i).spaces, target, space);
    path.Some? && forall id | id in path.value :: id in keys
  }

  ghost predicate LiveSeen(history: History, start: nat, end: nat, target: Id) {
    exists i | start <= i < end :: Live(history(i).spaces, target)
  }

  ghost predicate RootSeen(history: History, start: nat, end: nat, target: Id) {
    exists i | start <= i < end :: ByRoot(history, i, target)
  }

  ghost predicate DirectSeen(history: History, start: nat, end: nat, grantIds: set<Id>, actor: Actor, target: Id) {
    exists i, g | start <= i < end && g in grantIds :: ByDirect(history, i, g, actor, target)
  }

  ghost predicate InheritedSeen(history: History, start: nat, end: nat, spaceIds: set<Id>, grantIds: set<Id>, actor: Actor, target: Id) {
    exists i, g, space | start <= i < end && g in grantIds :: ByInherited(history, start, end, i, g, space, spaceIds, actor, target)
  }

  /** The target may be read on rows among those recorded, each as some statement in the range saw it. */
  ghost predicate SupportsRead(history: History, start: nat, end: nat, spaceIds: set<Id>, grantIds: set<Id>, actor: Actor, admin: bool, target: Id) {
    && target in spaceIds
    && LiveSeen(history, start, end, target)
    && (|| admin
        || RootSeen(history, start, end, target)
        || DirectSeen(history, start, end, grantIds, actor, target)
        || InheritedSeen(history, start, end, spaceIds, grantIds, actor, target))
  }

  ghost predicate ByInherited(history: History, start: nat, end: nat, i: nat, g: Id, space: Id, keys: set<Id>, actor: Actor, target: Id) {
    ByPath(history, i, space, keys, target) && GrantOn(history, start, end, g, actor, space)
  }

  ghost predicate GrantOn(history: History, start: nat, end: nat, g: Id, actor: Actor, space: Id) {
    exists i | start <= i < end :: ByDirect(history, i, g, actor, space)
  }

  ghost predicate ByScope(history: History, i: nat, ceiling: AccessClass, request: Request, space: Id) {
    ScopeWithin(history(i), ceiling, request) && history(i).scopes[request].space == space
  }

  ghost predicate ByContributor(history: History, i: nat, g: Id, actor: Actor, space: Id) {
    IsContributorGrant(history(i).grants, g, actor, space)
  }

  ghost predicate SupportsRequest(history: History, start: nat, end: nat, spaceIds: set<Id>, grantIds: set<Id>, ctx: Context, admin: bool, request: Request) {
    if request.SpaceRead? then SupportsRead(history, start, end, spaceIds, grantIds, ctx.actor, admin, request.space)
    else
      exists i, space | start <= i < end ::
        && ByScope(history, i, ctx.ceiling, request, space)
        && SupportsRead(history, start, end, spaceIds, grantIds, ctx.actor, admin, space)
        && (request.RelationshipEnd? ==> admin || ContributorSeen(history, start, end, grantIds, ctx.actor, space))
  }

  ghost predicate ContributorSeen(history: History, start: nat, end: nat, grantIds: set<Id>, actor: Actor, space: Id) {
    exists i, g | start <= i < end && g in grantIds :: ByContributor(history, i, g, actor, space)
  }

  // ----- Frozen rows carry authority forward -----

  /** The named rows stay as they are from statement `from` on. */
  ghost predicate Frozen(history: History, from: nat, spaceIds: set<Id>, grantIds: set<Id>) {
    && (forall i: nat, j: nat, id | from <= i && from <= j && id in spaceIds && id in history(i).spaces ::
          id in history(j).spaces && history(j).spaces[id] == history(i).spaces[id])
    && (forall i: nat, j: nat, g | from <= i && from <= j && g in grantIds && g in history(i).grants ::
          g in history(j).grants && history(j).grants[g] == history(i).grants[g])
  }

  lemma PathPersists(history: History, start: nat, spaceIds: set<Id>, grantIds: set<Id>, i: nat, j: nat, target: Id, space: Id)
    requires Frozen(history, start, spaceIds, grantIds) && start <= i && start <= j
    requires ByPath(history, i, space, spaceIds, target)
    ensures LoadPath(history(j).spaces, target, space).Some?
  {
    var path := LoadPath(history(i).spaces, target, space).value;
    PathIsOpenChain(history(i).spaces, target, space);
    forall id | id in path
      ensures SameLiveRow(history(i).spaces, history(j).spaces, id)
    {
      var k :| 0 <= k < |path| && path[k] == id;
    }
    PathDependsOnItsRows(history(i).spaces, history(j).spaces, target, space);
  }

  lemma ReadPersists(history: History, start: nat, end: nat, spaceIds: set<Id>, grantIds: set<Id>, actor: Actor, admin: bool, target: Id, j: nat)
    requires Frozen(history, start, spaceIds, grantIds) && start <= j
    requires SupportsRead(history, start, end, spaceIds, grantIds, actor, admin, target)
    ensures MayRead(history(j).spaces, history(j).grants, actor, admin, target)
  {
    var db := history(j);
    var live :| start <= live < end && Live(history(live).spaces, target);
    assert Live(db.spaces, target);
    if DirectSeen(history, start, end, grantIds, actor, target) {
      var i, g :| start <= i < end && g in grantIds && ByDirect(history, i, g, actor, target);
      assert g in DirectGrants(db.grants, actor, target);
    } else if InheritedSeen(history, start, end, spaceIds, grantIds, actor, target) {
      var i, g, space :| start <= i < end && g in grantIds && ByInherited(history, start, end, i, g, space, spaceIds, actor, target);
      PathPersists(history, start, spaceIds, grantIds, i, j, target, space);
      var k :| start <= k < end && ByDirect(history, k, g, actor, space);
      PathInherits(db.spaces, db.grants, actor, target, g);
    }
  }

  lemma ContributorPersists(history: History, start: nat, end: nat, spaceIds: set<Id>, grantIds: set<Id>, actor: Actor, space: Id, j: nat)
    requires Frozen(history, start, spaceIds, grantIds) && start <= j
    requires ContributorSeen(history, start, end, grantIds, actor, space)
    ensures ContributorGrants(history(j).grants, actor, space) != {}
  {
    var k, g :| start <= k < end && g in grantIds && ByContributor(history, k, g, actor, space);
    assert g in ContributorGrants(history(j).grants, actor, space);
  }

  /** The scope rows of the requests, which nothing locks, read the same at every statement of the range and at `j`. */
  ghost predicate ScopesSame(history: History, start: nat, end: nat, j: nat, request: Request) {
    forall i | start <= i < end && request in history(i).scopes ::
      request in history(j).scopes && history(j).scopes[request] == history(i).scopes[request]
  }

  lemma RequestPersists(history: History, start: nat, end: nat, spaceIds: set<Id>, grantIds: set<Id>, ctx: Context, admin: bool, request: Request, j: nat)
    requires Frozen(history, start, spaceIds, grantIds) && start <= j && ScopesSame(history, start, end, j, request)
    requires SupportsRequest(history, start, end, spaceIds, grantIds, ctx, admin, request)
    ensures RequestAllowed(history(j), ctx, admin, request)
  {
    if request.SpaceRead? {
      ReadPersists(history, start, end, spaceIds, grantIds, ctx.actor, admin, request.space, j);
    } else {
      var i, space :| start <= i < end
        && ByScope(history, i, ctx.ceiling, request, space)
        && SupportsRead(history, start, end, spaceIds, grantIds, ctx.actor, admin, space)
        && (request.RelationshipEnd? ==> admin || ContributorSeen(history, start, end, grantIds, ctx.actor, space));
      ReadPersists(history, start, end, spaceIds, grantIds, ctx.actor, admin, space, j);
      if request.RelationshipEnd? && !admin {
        ContributorPersists(history, start, end, spaceIds, grantIds, ctx.actor, space, j);
      }
    }
  }

  lemma SupportsReadGrows(history: History, start: nat, end: nat, spaceIds: set<Id>, grantIds: set<Id>,
                          end': nat, spaceIds': set<Id>, grantIds': set<Id>, actor: Actor, admin: bool, target: Id)
    requires SupportsRead(history, start, end, spaceIds, grantIds, actor, admin, target)
    requires end <= end' && spaceIds <= spaceIds' && grantIds <= grantIds'
    ensures SupportsRead(history, start, end', spaceIds', grantIds', actor, admin, target)
  {
    if InheritedSeen(history, start, end, spaceIds, grantIds, actor, target) {
      var i, g, space :| start <= i < end && g in grantIds && ByInherited(history, start, end, i, g, space, spaceIds, actor, target);
      assert ByInherited(history, start, end', i, g, space, spaceIds', actor, target);
    }
  }

  lemma SupportsRequestGrows(history: History, start: nat, end: nat, spaceIds: set<Id>, grantIds: set<Id>,
                             end': nat, spaceIds': set<Id>, grantIds': set<Id>, ctx: Context, admin: bool, request: Request)
    requires SupportsRequest(history, start, end, spaceIds, grantIds, ctx, admin, request)
    requires end <= end' && spaceIds <= spaceIds' && grantIds <= grantIds'
    ensures SupportsRequest(history, start, end', spaceIds', grantIds', ctx, admin, request)
  {
    if request.SpaceRead? {
      SupportsReadGrows(history, start, end, spaceIds, grantIds, end', spaceIds', grantIds', ctx.actor, admin, request.space);
    } else {
      var i, space :| start <= i < end
        && ByScope(history, i, ctx.ceiling, request, space)
        && SupportsRead(history, start, end, spaceIds, grantIds, ctx.actor, admin, space)
        && (request.RelationshipEnd? ==> admin || ContributorSeen(history, start, end, grantIds, ctx.actor, space));
      SupportsReadGrows(history, start, end, spaceIds, grantIds, end', spaceIds', grantIds', ctx.actor, admin, space);
    }
  }

  lemma FaithfulLonger(history: History, start: nat, end: nat, end': nat, spaces: Spaces, grants: Grants, actor: Actor)
    requires Faithful(history, start, end, spaces, grants, actor) && end <= end'
    ensures Faithful(history, start, end', spaces, grants, actor)
  {
  }

  // ----- Locks -----

  /** Rows share-locked by the transaction, with the statement that locked each. */
  datatype Locks = Locks(policyAt: nat, memberAt: nat, spacesAt: map<Id, nat>, grantsAt: map<Id, nat>)

  ghost predicate SpaceStays(before: Db, after: Db, id: Id) {
    id in before.spaces ==> id in after.spaces && after.spaces[id] == before.spaces[id]
  }

  ghost predicate GrantStays(before: Db, after: Db, g: Id) {
    g in before.grants ==> g in after.grants && after.grants[g] == before.grants[g]
  }

  /** What share locks buy: from the locking statement to the end of the transaction nobody changes the row. */
  ghost predicate LocksHold(history: History, locks: Locks) {
    && (forall j: nat | locks.policyAt <= j :: history(j).policy == history(locks.policyAt).policy)
    && (forall j: nat | locks.memberAt <= j :: history(j).member == history(locks.memberAt).member)
    && (forall id, j: nat | id in locks.spacesAt && locks.spacesAt[id] <= j :: SpaceStays(history(locks.spacesAt[id]), history(j), id))
    && (forall g, j: nat | g in locks.grantsAt && locks.grantsAt[g] <= j :: GrantStays(history(locks.grantsAt[g]), history(j), g))
  }

  /** The named rows are locked, by statements before `from`, with the given contents. */
  ghost predicate LockedWith(history: History, locks: Locks, from: nat, spaces: Spaces, grants: Grants) {
    && (forall id | id in spaces ::
          id in locks.spacesAt && locks.spacesAt[id] < from && SpaceSeen(history, locks.spacesAt[id], id, spaces[id]))
    && (forall g | g in grants ::
          g in locks.grantsAt && locks.grantsAt[g] < from
          && g in history(locks.grantsAt[g]).grants && history(locks.grantsAt[g]).grants[g] == grants[g])
  }

  lemma LockedRowsStay(history: History, locks: Locks, from: nat, spaces: Spaces, grants: Grants, j: nat)
    requires LocksHold(history, locks) && LockedWith(history, locks, from, spaces, grants) && from <= j
    ensures forall id | id in spaces :: Live(history(j).spaces, id) && history(j).spaces[id] == spaces[id]
    ensures forall g | g in grants :: g in history(j).grants && history(j).grants[g] == grants[g]
  {
    forall id | id in spaces
      ensures Live(history(j).spaces, id) && history(j).spaces[id] == spaces[id]
    {
      assert SpaceStays(history(locks.spacesAt[id]), history(j), id);
    }
    forall g | g in grants
      ensures g in history(j).grants && history(j).grants[g] == grants[g]
    {
      assert GrantStays(history(locks.grantsAt[g]), history(j), g);
    }
  }

  lemma LockedRowsAreFrozen(history: History, locks: Locks, from: nat, spaces: Spaces, grants: Grants)
    requires LocksHold(history, locks) && LockedWith(history, locks, from, spaces, grants)
    ensures Frozen(history, from, spaces.Keys, grants.Keys)
  {
    forall i: nat, j: nat, id | from <= i && from <= j && id in spaces.Keys && id in history(i).spaces
      ensures id in history(j).spaces && history(j).spaces[id] == history(i).spaces[id]
    {
      LockedRowsStay(history, locks, from, spaces, grants, i);
      LockedRowsStay(history, locks, from, spaces, grants, j);
    }
    forall i: nat, j: nat, g | from <= i && from <= j && g in grants.Keys && g in history(i).grants
      ensures g in history(j).grants && history(j).grants[g] == history(i).grants[g]
    {
      LockedRowsStay(history, locks, from, spaces, grants, i);
      LockedRowsStay(history, locks, from, spaces, grants, j);
    }
  }

  /** What a grant of authority rests on, all of it locked before statement `from`. */
  ghost predicate AuthorityLocked(history: History, locks: Locks, from: nat, ctx: Context, role: Role, spaces: Spaces, grants: Grants) {
    && locks.policyAt < from && ActivePolicy(history(locks.policyAt)).Some?
    && locks.memberAt < from && ExactActor(history(locks.memberAt), ctx).Some?
    && ExactActor(history(locks.memberAt), ctx).value.role == role
    && LockedWith(history, locks, from, spaces, grants)
  }

  lemma LockedActorStays(history: History, locks: Locks, from: nat, ctx: Context, j: nat)
    requires LocksHold(history, locks) && locks.policyAt < from && locks.memberAt < from
    requires from <= j && ActivePolicy(history(locks.policyAt)).Some?
    ensures ActivePolicy(history(j)).Some? && ExactActor(history(j), ctx) == ExactActor(history(locks.memberAt), ctx)
  {
  }

  /**
   What an allowed batch promises, whatever other transactions write: as long as the locks hold, at
   every later statement the policy and the actor are what they were, every Space and grant row the
   final evaluation recorded equals the first evaluation's, and each request is still allowed by
   the rule, provided its scope row reads as it did during the final evaluation.
   */
  lemma AuthorityLasts(history: History, locks: Locks, from: nat, next: nat, spaces: Spaces, grants: Grants, ctx: Context, role: Role, request: Request, j: nat)
    requires LocksHold(history, locks) && AuthorityLocked(history, locks, from, ctx, role, spaces, grants) && from <= j
    requires SupportsRequest(history, from, next, spaces.Keys, grants.Keys, ctx, IsAdmin(role), request)
    ensures ActivePolicy(history(j)).Some? && ExactActor(history(j), ctx) == ExactActor(history(locks.memberAt), ctx)
    ensures forall id | id in spaces :: Live(history(j).spaces, id) && history(j).spaces[id] == spaces[id]
    ensures forall g | g in grants :: g in history(j).grants && history(j).grants[g] == grants[g]
    ensures ScopesSame(history, from, next, j, request) ==> RequestAllowed(history(j), ctx, IsAdmin(role), request)
    ensures PolicyIsActive(history(j)) && ActsAs(history(j), ctx, role)
    ensures ScopesSame(history, from, next, j, request) ==> AllowedByRows(history(j), ctx, Administers(role), request)
  {
    LockedActorStays(history, locks, from, ctx, j);
    LockedRowsStay(history, locks, from, spaces, grants, j);
    ActorMeaning(history(j), ctx);
    if ScopesSame(history, from, next, j, request) {
      RequestAllowedMeaning(history(j), ctx, IsAdmin(role), request);
      LockedRequestLasts(history, locks, from, next, spaces, grants, ctx, IsAdmin(role), request, j);
    }
  }

  lemma LockedRequestLasts(history: History, locks: Locks, from: nat, next: nat, spaces: Spaces, grants: Grants, ctx: Context, admin: bool, request: Request, j: nat)
    requires LocksHold(history, locks) && LockedWith(history, locks, from, spaces, grants) && from <= j
    requires SupportsRequest(history, from, next, spaces.Keys, grants.Keys, ctx, admin, request)
    requires ScopesSame(history, from, next, j, request)
    ensures RequestAllowed(history(j), ctx, admin, request)
  {
    LockedRowsAreFrozen(history, locks, from, spaces, grants);
    RequestPersists(history, from, next, spaces.Keys, grants.Keys, ctx, admin, request, j);
  }

  // ----- What lasts in every continuation -----

  ghost predicate AgreeUpTo(history: History, other: History, n: nat) {
    forall i: nat | i < n :: other(i) == history(i)
  }

  lemma SupportsReadAgrees(history: History, other: History, start: nat, end: nat, spaceIds: set<Id>, grantIds: set<Id>, actor: Actor, admin: bool, target: Id)
    requires AgreeUpTo(history, other, end)
    requires SupportsRead(history, start, end, spaceIds, grantIds, actor, admin, target)
    ensures SupportsRead(other, start, end, spaceIds, grantIds, actor, admin, target)
  {
    var live :| start <= live < end && Live(history(live).spaces, target);
    assert Live(other(live).spaces, target);
    if RootSeen(history, start, end, target) {
      var i :| start <= i < end && ByRoot(history, i, target);
      assert ByRoot(other, i, target);
    } else if DirectSeen(history, start, end, grantIds, actor, target) {
      var i, g :| start <= i < end && g in grantIds && ByDirect(history, i, g, actor, target);
      assert ByDirect(other, i, g, actor, target);
    } else if InheritedSeen(history, start, end, spaceIds, grantIds, actor, target) {
      var i, g, space :| start <= i < end && g in grantIds && ByInherited(history, start, end, i, g, space, spaceIds, actor, target);
      var k :| start <= k < end && ByDirect(history, k, g, actor, space);
      assert ByDirect(other, k, g, actor, space);
      assert ByInherited(other, start, end, i, g, space, spaceIds, actor, target);
    }
  }

  lemma LockedWithAgrees(history: History, other: History, locks: Locks, from: nat, spaces: Spaces, grants: Grants)
    requires AgreeUpTo(history, other, from) && LockedWith(history, locks, from, spaces, grants)
    ensures LockedWith(other, locks, from, spaces, grants)
  {
    forall id | id in spaces
      ensures SpaceSeen(other, locks.spacesAt[id], id, spaces[id])
    {
      assert SpaceSeen(history, locks.spacesAt[id], id, spaces[id]);
    }
  }

  /** The history in which, from statement `n` on, no resource has a scope row any more. */
  function WithoutScopesFrom(history: History, n: nat): History {
    (i: nat) => if i < n then history(i) else history(i).(scopes := map[])
  }

  lemma LocksIgnoreScopes(history: History, locks: Locks, n: nat)
    requires LocksHold(history, locks)
    ensures LocksHold(WithoutScopesFrom(history, n), locks) && AgreeUpTo(history, WithoutScopesFrom(history, n), n)
  {
    var other := WithoutScopesFrom(history, n);
    assert forall i: nat :: other(i).policy == history(i).policy && other(i).member == history(i).member
                            && other(i).spaces == history(i).spaces && other(i).grants == history(i).grants;
    forall id, j: nat | id in locks.spacesAt && locks.spacesAt[id] <= j
      ensures SpaceStays(other(locks.spacesAt[id]), other(j), id)
    {
      assert SpaceStays(history(locks.spacesAt[id]), history(j), id);
    }
    forall g, j: nat | g in locks.grantsAt && locks.grantsAt[g] <= j
      ensures GrantStays(other(locks.grantsAt[g]), other(j), g)
    {
      assert GrantStays(history(locks.grantsAt[g]), history(j), g);
    }
  }

  lemma LockedSpaceReadLasts(history: History, other: History, locks: Locks, from: nat, next: nat, spaces: Spaces, grants: Grants, ctx: Context, admin: bool, target: Id, j: nat)
    requires from <= next <= j && LockedWith(history, locks, from, spaces, grants)
    requires SupportsRead(history, from, next, spaces.Keys, grants.Keys, ctx.actor, admin, target)
    requires AgreeUpTo(history, other, next) && LocksHold(other, locks)
    ensures MayRead(other(j).spaces, other(j).grants, ctx.actor, admin, target)
  {
    LockedWithAgrees(history, other, locks, from, spaces, grants);
    LockedRowsAreFrozen(other, locks, from, spaces, grants);
    SupportsReadAgrees(history, other, from, next, spaces.Keys, grants.Keys, ctx.actor, admin, target);
    ReadPersists(other, from, next, spaces.Keys, grants.Keys, ctx.actor, admin, target, j);
  }

  ghost predicate AllowedInEveryContinuation(history: History, locks: Locks, next: nat, ctx: Context, admin: bool, request: Request) {
    forall other: History, j: nat | AgreeUpTo(history, other, next) && LocksHold(other, locks) && next <= j ::
      RequestAllowed(other(j), ctx, admin, request)
  }

  /**
   Which requests of an allowed batch stay allowed whatever other transactions write after it while
   the locks hold: the reads of Spaces, and no others. All other requests rest on a scope row, and
   nothing locks those.
   */
  lemma OnlySpaceReadsLast(history: History, locks: Locks, from: nat, next: nat, spaces: Spaces, grants: Grants, ctx: Context, role: Role, request: Request)
    requires from <= next && LocksHold(history, locks) && AuthorityLocked(history, locks, from, ctx, role, spaces, grants)
    requires SupportsRequest(history, from, next, spaces.Keys, grants.Keys, ctx, IsAdmin(role), request)
    ensures AllowedInEveryContinuation(history, locks, next, ctx, IsAdmin(role), request) <==> request.SpaceRead?
  {
    if request.SpaceRead? {
      forall other: History, j: nat | AgreeUpTo(history, other, next) && LocksHold(other, locks) && next <= j
        ensures RequestAllowed(other(j), ctx, IsAdmin(role), request)
      {
        LockedSpaceReadLasts(history, other, locks, from, next, spaces, grants, ctx, IsAdmin(role), request.space, j);
      }
    } else {
      LocksIgnoreScopes(history, locks, next);
      assert !RequestAllowed(WithoutScopesFrom(history, next)(next), ctx, IsAdmin(role), request);
    }
  }
}
