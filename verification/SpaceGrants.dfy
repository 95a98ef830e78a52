/**
 Reading a Space: grants are inherited from ancestors up to the first restricted Space. The code
 says this three times: as a query over the ancestors with depths and boundaries, as a walk that
 loads the path from the Space to a grant, and, in its documentation, as a recursive rule.
 All rows are those of one tenant and workspace.
 */
module SpaceGrants {
  import opened Wrappers

  /** Row ids, in the order of the id column. */
  type Id = nat

  datatype Kind = WorkspaceRoot | OrdinarySpace

  datatype AccessClass = Public | Workspace | Restricted | Confidential

  datatype Space = Space(parent: Option<Id>, kind: Kind, accessClass: AccessClass, restricted: bool, archived: bool)

  type Spaces = map<Id, Space>

  datatype Subject = Membership(membershipId: Id) | User(userId: Id) | OtherSubject

  datatype Relation = Owner | Manager | Contributor | Viewer | OtherRelation

  datatype Grant = Grant(onSpace: bool, resource: Id, subject: Subject, relation: Relation)

  type Grants = map<Id, Grant>

  datatype Actor = Actor(membershipId: Id, userId: Id)

  predicate Live(spaces: Spaces, id: Id) {
    id in spaces && !spaces[id].archived
  }

  /** A grant on a Space, in one of the four relations, for the actor's membership or user. */
  predicate Held(g: Grant, actor: Actor) {
    g.onSpace && !g.relation.OtherRelation? && (g.subject == Membership(actor.membershipId) || g.subject == User(actor.userId))
  }

  /**
   The recursive query: the Space and its ancestors, nearest first, as long as each is live. A
   position in the sequence is the depth. Every Space is taken once; on a forest that never matters.
   */
  function Ancestors(spaces: Spaces, id: Id): (ids: seq<Id>)
    ensures Live(spaces, id) <==> ids != []
    ensures ids != [] ==> ids[0] == id
    ensures forall k | 0 <= k < |ids| :: Live(spaces, ids[k])
    decreases |spaces|
  {
    if !Live(spaces, id) then []
    else if spaces[id].parent.None? then [id]
    else
      assert |spaces - {id}| < |spaces| by { RemovingShrinks(spaces, id); }
      [id] + Ancestors(spaces - {id}, spaces[id].parent.value)
  }

  lemma RemovingShrinks(spaces: Spaces, id: Id)
    requires id in spaces
    ensures |spaces - {id}| < |spaces|
  {
    assert (spaces - {id}).Keys == spaces.Keys - {id};
  }

  function DirectGrants(grants: Grants, actor: Actor, space: Id): set<Id> {
    set g | g in grants && Held(grants[g], actor) && grants[g].resource == space
  }

  /** Nothing nearer than depth `d` is restricted. */
  predicate NoBoundary(spaces: Spaces, ids: seq<Id>, d: nat)
    requires d <= |ids|
  {
    forall b | 0 <= b < d :: ids[b] in spaces && !spaces[ids[b]].restricted
  }

  /** The inherited part of the query: depth and id of each grant found on an ancestor. */
  function InheritedGrants(spaces: Spaces, grants: Grants, actor: Actor, target: Id): set<(nat, Id)> {
    var ids := Ancestors(spaces, target);
    set d: nat, g | 0 <= d < |ids| && g in grants && InheritedAt(spaces, grants, actor, ids, d, g) :: (d, g)
  }

  predicate InheritedAt(spaces: Spaces, grants: Grants, actor: Actor, ids: seq<Id>, d: nat, g: Id)
    requires d < |ids| && g in grants
  {
    0 < d && Held(grants[g], actor) && grants[g].resource == ids[d] && NoBoundary(spaces, ids, d)
  }

  function IndexOf(ids: seq<Id>, id: Id): (i: int)
    ensures -1 <= i < |ids|
    ensures i >= 0 ==> ids[i] == id
    ensures forall k | 0 <= k < (if i < 0 then |ids| else i) :: ids[k] != id
  {
    if ids == [] then -1
    else if ids[0] == id then 0
    else
      var i := IndexOf(ids[1..], id);
      if i < 0 then -1 else i + 1
  }

  /** `loadInheritedAuthorityPath`: from the target up to the Space of the grant, both included. */
  function LoadPath(spaces: Spaces, target: Id, grantSpace: Id): (path: Option<seq<Id>>)
    ensures path.Some? ==> forall id | id in path.value :: Live(spaces, id)
  {
    var ids := Ancestors(spaces, target);
    var i := IndexOf(ids, grantSpace);
    if i <= 0 || !NoBoundary(spaces, ids, i) then None else Some(ids[..i + 1])
  }

  // ----- The recursive rule -----

  /** Parents have lower rank: the Spaces form a forest. */
  ghost predicate Ranked(spaces: Spaces, rank: Id -> nat) {
    forall id | id in spaces && spaces[id].parent.Some? && spaces[id].parent.value in spaces ::
      rank(spaces[id].parent.value) < rank(id)
  }

  /** The grant is on this Space, for the actor's membership or user, as owner, manager, contributor or viewer. */
  predicate Gives(g: Grant, actor: Actor, space: Id) {
    && g.onSpace && g.resource == space
    && (g.subject == Membership(actor.membershipId) || g.subject == User(actor.userId))
    && (g.relation.Owner? || g.relation.Manager? || g.relation.Contributor? || g.relation.Viewer?)
  }

  ghost predicate IsGiven(grants: Grants, actor: Actor, space: Id) {
    exists g | g in grants :: Gives(grants[g], actor, space)
  }

  lemma DirectMeansGiven(grants: Grants, actor: Actor, space: Id)
    ensures DirectGrants(grants, actor, space) != {} <==> IsGiven(grants, actor, space)
  {
    if g :| g in grants && Gives(grants[g], actor, space) {
      assert g in DirectGrants(grants, actor, space);
    }
    if g :| g in DirectGrants(grants, actor, space) {
      assert Gives(grants[g], actor, space);
    }
  }

  /** A direct grant, or mode "inherit" and the parent is reachable by grant. */
  ghost predicate Reachable(spaces: Spaces, grants: Grants, actor: Actor, rank: Id -> nat, id: Id)
    requires Ranked(spaces, rank)
    decreases rank(id)
  {
    && id in spaces && !spaces[id].archived
    && (|| IsGiven(grants, actor, id)
        || (&& !spaces[id].restricted
            && spaces[id].parent.Some? && spaces[id].parent.value in spaces
            && Reachable(spaces, grants, actor, rank, spaces[id].parent.value)))
  }

  lemma {:induction false} LowerRanksOnly(spaces: Spaces, rank: Id -> nat, x: Id, id: Id)
    requires Ranked(spaces, rank) && rank(id) < rank(x)
    ensures Ancestors(spaces - {x}, id) == Ancestors(spaces, id)
    decreases rank(id)
  {
    if Live(spaces, id) && spaces[id].parent.Some? {
      var p := spaces[id].parent.value;
      if p in spaces {
        LowerRanksOnly(spaces - {id}, rank, x, p);
        assert spaces - {x} - {id} == spaces - {id} - {x};
      }
    }
  }

  /** On a forest the walk is the plain recursion. */
  lemma AncestorsOnForest(spaces: Spaces, rank: Id -> nat, id: Id)
    requires Ranked(spaces, rank) && Live(spaces, id)
    ensures Ancestors(spaces, id) ==
            [id] + if spaces[id].parent.None? then [] else Ancestors(spaces, spaces[id].parent.value)
  {
    if spaces[id].parent.Some? && spaces[id].parent.value in spaces {
      LowerRanksOnly(spaces, rank, id, spaces[id].parent.value);
    }
  }

  predicate AllDistinct(ids: seq<Id>) {
    forall i, j | 0 <= i < j < |ids| :: ids[i] != ids[j]
  }

  /** The walk takes no Space twice. */
  lemma {:induction false} AncestorsAreDistinct(spaces: Spaces, id: Id)
    ensures AllDistinct(Ancestors(spaces, id))
    decreases |spaces|
  {
    if Live(spaces, id) && spaces[id].parent.Some? {
      RemovingShrinks(spaces, id);
      AncestorsAreDistinct(spaces - {id}, spaces[id].parent.value);
      var ids, above := Ancestors(spaces, id), Ancestors(spaces - {id}, spaces[id].parent.value);
      assert ids == [id] + above;
      assert forall k | 0 <= k < |above| :: Live(spaces - {id}, above[k]);
    }
  }

  // ----- One meaning -----

  lemma InheritedFromParent(spaces: Spaces, grants: Grants, actor: Actor, rank: Id -> nat, target: Id)
    requires Ranked(spaces, rank) && Live(spaces, target)
    requires spaces[target].parent.Some? && !spaces[target].restricted
    ensures var p := spaces[target].parent.value;
            InheritedGrants(spaces, grants, actor, target) != {} <==>
              Live(spaces, p) && (DirectGrants(grants, actor, p) != {} || InheritedGrants(spaces, grants, actor, p) != {})
  {
    var p := spaces[target].parent.value;
    AncestorsOnForest(spaces, rank, target);
    var ids, above := Ancestors(spaces, target), Ancestors(spaces, p);
    assert ids == [target] + above;
    if x :| x in InheritedGrants(spaces, grants, actor, target) {
      var (d, g) := x;
      assert above[d - 1] == ids[d];
      if d == 1 {
        assert g in DirectGrants(grants, actor, p);
      } else {
        assert forall b | 0 <= b < d - 1 :: above[b] == ids[b + 1];
        assert InheritedAt(spaces, grants, actor, above, d - 1, g);
        assert (d - 1, g) in InheritedGrants(spaces, grants, actor, p);
      }
    }
    if Live(spaces, p) {
      if g :| g in DirectGrants(grants, actor, p) {
        assert InheritedAt(spaces, grants, actor, ids, 1, g);
        assert (1, g) in InheritedGrants(spaces, grants, actor, target);
      }
      if x :| x in InheritedGrants(spaces, grants, actor, p) {
        var (d, g) := x;
        assert forall b | 1 <= b <= d :: ids[b] == above[b - 1];
        assert InheritedAt(spaces, grants, actor, ids, d + 1, g);
        assert (d + 1, g) in InheritedGrants(spaces, grants, actor, target);
      }
    }
  }

  /** A restricted Space inherits nothing, so the separate test of the target's mode never decides. */
  lemma RestrictedInheritsNothing(spaces: Spaces, grants: Grants, actor: Actor, target: Id)
    requires Live(spaces, target) && spaces[target].restricted
    ensures InheritedGrants(spaces, grants, actor, target) == {}
  {
    if x :| x in InheritedGrants(spaces, grants, actor, target) {
      assert false;
    }
  }

  /** The query over depths and boundaries finds a grant exactly when the recursive rule does. */
  lemma {:induction false} QueryMeetsRule(spaces: Spaces, grants: Grants, actor: Actor, rank: Id -> nat, target: Id)
    requires Ranked(spaces, rank) && Live(spaces, target)
    ensures DirectGrants(grants, actor, target) != {} || InheritedGrants(spaces, grants, actor, target) != {} <==>
            Reachable(spaces, grants, actor, rank, target)
    decreases rank(target)
  {
    DirectMeansGiven(grants, actor, target);
    AncestorsOnForest(spaces, rank, target);
    if spaces[target].restricted {
      RestrictedInheritsNothing(spaces, grants, actor, target);
    } else if spaces[target].parent.Some? {
      var p := spaces[target].parent.value;
      InheritedFromParent(spaces, grants, actor, rank, target);
      if Live(spaces, p) {
        QueryMeetsRule(spaces, grants, actor, rank, p);
      }
    }
  }

  /** A path makes its grant an inherited one. This needs no forest. */
  lemma PathInherits(spaces: Spaces, grants: Grants, actor: Actor, target: Id, g: Id)
    requires g in grants && Held(grants[g], actor) && LoadPath(spaces, target, grants[g].resource).Some?
    ensures (IndexOf(Ancestors(spaces, target), grants[g].resource) as nat, g) in InheritedGrants(spaces, grants, actor, target)
  {
    var ids := Ancestors(spaces, target);
    assert InheritedAt(spaces, grants, actor, ids, IndexOf(ids, grants[g].resource), g);
  }

  /** The query returns exactly the grants for which the walk returns a path. */
  lemma InheritedExactlyWithPath(spaces: Spaces, grants: Grants, actor: Actor, target: Id, g: Id)
    requires g in grants
    ensures (exists d: nat :: (d, g) in InheritedGrants(spaces, grants, actor, target)) <==>
            Held(grants[g], actor) && LoadPath(spaces, target, grants[g].resource).Some?
  {
    var ids := Ancestors(spaces, target);
    AncestorsAreDistinct(spaces, target);
    if d: nat :| (d, g) in InheritedGrants(spaces, grants, actor, target) {
      assert ids[d] == grants[g].resource;
      assert IndexOf(ids, grants[g].resource) == d;
    }
    if Held(grants[g], actor) && LoadPath(spaces, target, grants[g].resource).Some? {
      PathInherits(spaces, grants, actor, target, g);
    }
  }

  /** The element after position `k` is the parent of the one there. */
  predicate ParentAt(spaces: Spaces, ids: seq<Id>, k: nat) {
    k + 1 < |ids| ==> ids[k] in spaces && spaces[ids[k]].parent == Some(ids[k + 1])
  }

  predicate IsParentChain(spaces: Spaces, ids: seq<Id>) {
    forall k | 0 <= k < |ids| :: ParentAt(spaces, ids, k)
  }

  lemma {:induction false} AncestorsAreParents(spaces: Spaces, id: Id)
    ensures IsParentChain(spaces, Ancestors(spaces, id))
    decreases |spaces|
  {
    if Live(spaces, id) && spaces[id].parent.Some? {
      RemovingShrinks(spaces, id);
      var others := spaces - {id};
      AncestorsAreParents(others, spaces[id].parent.value);
      var ids, above := Ancestors(spaces, id), Ancestors(others, spaces[id].parent.value);
      assert ids == [id] + above;
      forall k | 0 <= k < |ids|
        ensures ParentAt(spaces, ids, k)
      {
        if k > 0 {
          assert ParentAt(others, above, k - 1);
        }
      }
    }
  }

  /** A path is a chain of live parents from the target to the grant, open everywhere below the grant. */
  lemma PathIsOpenChain(spaces: Spaces, target: Id, grantSpace: Id)
    requires LoadPath(spaces, target, grantSpace).Some?
    ensures var path := LoadPath(spaces, target, grantSpace).value;
            && |path| >= 2 && path[0] == target && path[|path| - 1] == grantSpace
            && (forall k | 0 <= k < |path| :: Live(spaces, path[k]))
            && (forall k | 0 <= k < |path| :: ParentAt(spaces, path, k) && (k + 1 < |path| ==> !spaces[path[k]].restricted))
  {
    AncestorsAreParents(spaces, target);
    var ids, path := Ancestors(spaces, target), LoadPath(spaces, target, grantSpace).value;
    assert forall k | 0 <= k < |path| :: path[k] == ids[k];
    assert NoBoundary(spaces, ids, |path| - 1);
    forall k | 0 <= k < |path|
      ensures ParentAt(spaces, path, k) && (k + 1 < |path| ==> !spaces[path[k]].restricted)
    {
      assert ParentAt(spaces, ids, k);
    }
  }

  // ----- Only the rows of the path matter -----

  /** The same row, live, on either side. */
  predicate SameLiveRow(spaces: Spaces, spaces': Spaces, id: Id) {
    Live(spaces, id) && id in spaces' && spaces'[id] == spaces[id]
  }

  lemma {:induction false} WalkDependsOnPath(spaces: Spaces, spaces': Spaces, target: Id, n: nat)
    requires n <= |Ancestors(spaces, target)|
    requires forall k | 0 <= k < n :: SameLiveRow(spaces, spaces', Ancestors(spaces, target)[k])
    ensures n <= |Ancestors(spaces', target)| && Ancestors(spaces', target)[..n] == Ancestors(spaces, target)[..n]
    decreases n
  {
    if n > 0 {
      var ids := Ancestors(spaces, target);
      assert SameLiveRow(spaces, spaces', ids[0]);
      if n > 1 {
        var p := spaces[target].parent.value;
        var above := Ancestors(spaces - {target}, p);
        assert ids == [target] + above;
        forall k | 0 <= k < n - 1
          ensures SameLiveRow(spaces - {target}, spaces' - {target}, above[k])
        {
          assert above[k] == ids[k + 1];
          assert SameLiveRow(spaces, spaces', ids[k + 1]);
        }
        WalkDependsOnPath(spaces - {target}, spaces' - {target}, p, n - 1);
        assert Ancestors(spaces', target) == [target] + Ancestors(spaces' - {target}, p);
      }
    }
  }

  /** Any change elsewhere, in other Spaces or above the grant, leaves the path as it is. */
  lemma PathDependsOnItsRows(spaces: Spaces, spaces': Spaces, target: Id, grantSpace: Id)
    requires LoadPath(spaces, target, grantSpace).Some?
    requires forall id | id in LoadPath(spaces, target, grantSpace).value :: SameLiveRow(spaces, spaces', id)
    ensures LoadPath(spaces', target, grantSpace) == LoadPath(spaces, target, grantSpace)
  {
    var ids, path := Ancestors(spaces, target), LoadPath(spaces, target, grantSpace).value;
    forall k | 0 <= k < |path|
      ensures SameLiveRow(spaces, spaces', ids[k])
    {
      assert path[k] in path;
    }
    WalkDependsOnPath(spaces, spaces', target, |path|);
    SamePrefixSamePath(spaces, spaces', target, grantSpace, |path|);
  }

  lemma SamePrefixSamePath(spaces: Spaces, spaces': Spaces, target: Id, grantSpace: Id, n: nat)
    requires LoadPath(spaces, target, grantSpace).Some? && |LoadPath(spaces, target, grantSpace).value| == n
    requires var ids, ids' := Ancestors(spaces, target), Ancestors(spaces', target);
             n <= |ids'| && ids'[..n] == ids[..n] && forall k | 0 <= k < n :: SameLiveRow(spaces, spaces', ids[k])
    ensures LoadPath(spaces', target, grantSpace) == LoadPath(spaces, target, grantSpace)
  {
    var ids, ids' := Ancestors(spaces, target), Ancestors(spaces', target);
    assert forall k | 0 <= k < n :: ids'[k] == ids'[..n][k] == ids[..n][k] == ids[k];
    assert IndexOf(ids', grantSpace) == n - 1;
    assert NoBoundary(spaces', ids', n - 1);
  }

  // ----- The decision -----

  /** Order of the query: nearest ancestor first, then grant id. */
  predicate IsFirst(found: set<(nat, Id)>, x: (nat, Id)) {
    x in found && forall y | y in found :: x.0 < y.0 || (x.0 == y.0 && x.1 <= y.1)
  }

  lemma {:induction false} FirstExists(found: set<(nat, Id)>) returns (first: (nat, Id))
    requires found != {}
    ensures IsFirst(found, first)
    decreases found
  {
    first :| first in found;
    var others := found - {first};
    assert found == others + {first};
    if others != {} {
      var next := FirstExists(others);
      if next.0 < first.0 || (next.0 == first.0 && next.1 <= first.1) {
        first := next;
      }
    }
  }

  lemma LeastExists(ids: set<Id>)
    requires ids != {}
    ensures exists g | g in ids :: forall other | other in ids :: g <= other
  {
    var pairs := set g | g in ids :: (0, g);
    var some :| some in ids;
    assert (0, some) in pairs;
    var first := FirstExists(pairs);
    assert first.1 in ids;
    forall other | other in ids
      ensures first.1 <= other
    {
      assert (0, other) in pairs;
    }
  }

  /** A Space may be read: it is live, and the role, its kind or a grant allows it. */
  predicate MayRead(spaces: Spaces, grants: Grants, actor: Actor, admin: bool, target: Id) {
    && Live(spaces, target)
    && (|| admin
        || spaces[target].kind.WorkspaceRoot?
        || DirectGrants(grants, actor, target) != {}
        || InheritedGrants(spaces, grants, actor, target) != {})
  }

  /**
   A chain of parents from the target up to another Space or itself: every Space on it is there and
   not archived, and none below the last is restricted.
   */
  ghost predicate IsOpenPath(spaces: Spaces, path: seq<Id>, target: Id) {
    && |path| > 0 && path[0] == target
    && (forall k | 0 <= k < |path| :: path[k] in spaces && !spaces[path[k]].archived)
    && (forall k | 0 <= k < |path| - 1 :: OpenStep(spaces, path, k))
  }

  /** The Space at position `k` is not restricted, and the next is its parent. */
  predicate OpenStep(spaces: Spaces, path: seq<Id>, k: nat)
    requires k + 1 < |path|
  {
    path[k] in spaces && !spaces[path[k]].restricted && spaces[path[k]].parent == Some(path[k + 1])
  }

  ghost predicate LeadsToGrant(spaces: Spaces, grants: Grants, actor: Actor, target: Id, path: seq<Id>) {
    IsOpenPath(spaces, path, target) && IsGiven(grants, actor, path[|path| - 1])
  }

  /** Who may read a Space, in its rows: it is not archived, and its kind, the role, or a grant at the end of an open path allows it. */
  ghost predicate MayReadByRows(spaces: Spaces, grants: Grants, actor: Actor, admin: bool, target: Id) {
    && target in spaces && !spaces[target].archived
    && (|| admin
        || spaces[target].kind.WorkspaceRoot?
        || exists path :: LeadsToGrant(spaces, grants, actor, target, path))
  }

  lemma OpenPathTail(spaces: Spaces, path: seq<Id>, target: Id, j: nat)
    requires IsOpenPath(spaces, path, target) && j < |path|
    ensures IsOpenPath(spaces, path[j..], path[j])
  {
    var tail := path[j..];
    forall k | 0 <= k < |tail| - 1
      ensures OpenStep(spaces, tail, k)
    {
      assert OpenStep(spaces, path, j + k);
    }
  }

  lemma OpenPathWithout(spaces: Spaces, path: seq<Id>, target: Id, x: Id)
    requires IsOpenPath(spaces, path, target) && x !in path
    ensures IsOpenPath(spaces - {x}, path, target)
  {
    forall k | 0 <= k < |path| - 1
      ensures OpenStep(spaces - {x}, path, k)
    {
      assert OpenStep(spaces, path, k) && path[k] in path;
    }
    assert forall k | 0 <= k < |path| :: path[k] in path;
  }

  /** The walk over the ancestors follows every open path, cycles or not. */
  lemma {:induction false} WalkFollowsPath(spaces: Spaces, path: seq<Id>, target: Id) returns (d: nat)
    requires IsOpenPath(spaces, path, target)
    ensures d < |Ancestors(spaces, target)| && Ancestors(spaces, target)[d] == path[|path| - 1]
    ensures NoBoundary(spaces, Ancestors(spaces, target), d)
    decreases |path|
  {
    if |path| == 1 {
      d := 0;
    } else if j :| 0 < j < |path| && path[j] == target {
      OpenPathTail(spaces, path, target, j);
      d := WalkFollowsPath(spaces, path[j..], target);
    } else {
      var others, p := spaces - {target}, path[1];
      assert OpenStep(spaces, path, 0);
      OpenPathTail(spaces, path, target, 1);
      OpenPathWithout(spaces, path[1..], p, target);
      var above := WalkFollowsPath(others, path[1..], p);
      assert Ancestors(spaces, target) == [target] + Ancestors(others, p);
      d := above + 1;
      var ids := Ancestors(spaces, target);
      forall b | 0 <= b < d
        ensures ids[b] in spaces && !spaces[ids[b]].restricted
      {
        assert b > 0 ==> ids[b] == Ancestors(others, p)[b - 1];
      }
    }
  }

  lemma WalkIsOpenPath(spaces: Spaces, target: Id, d: nat)
    requires d < |Ancestors(spaces, target)| && NoBoundary(spaces, Ancestors(spaces, target), d)
    ensures IsOpenPath(spaces, Ancestors(spaces, target)[..d + 1], target)
  {
    AncestorsAreParents(spaces, target);
    var ids := Ancestors(spaces, target);
    var path := ids[..d + 1];
    forall k | 0 <= k < d
      ensures OpenStep(spaces, path, k)
    {
      assert ParentAt(spaces, ids, k);
    }
  }

  /** What the query decides, said in rows, on every database, forest or not. */
  lemma MayReadMeaning(spaces: Spaces, grants: Grants, actor: Actor, admin: bool, target: Id)
    ensures MayRead(spaces, grants, actor, admin, target) <==> MayReadByRows(spaces, grants, actor, admin, target)
  {
    if path :| LeadsToGrant(spaces, grants, actor, target, path) {
      PathEndsInGrant(spaces, grants, actor, target, path);
    }
    if Live(spaces, target) {
      if DirectGrants(grants, actor, target) != {} {
        DirectMeansGiven(grants, actor, target);
        assert LeadsToGrant(spaces, grants, actor, target, [target]);
      }
      if x :| x in InheritedGrants(spaces, grants, actor, target) {
        var (d, g) := x;
        var path := Ancestors(spaces, target)[..d + 1];
        WalkIsOpenPath(spaces, target, d);
        assert Gives(grants[g], actor, path[d]);
        assert LeadsToGrant(spaces, grants, actor, target, path);
      }
    }
  }

  lemma PathEndsInGrant(spaces: Spaces, grants: Grants, actor: Actor, target: Id, path: seq<Id>)
    requires LeadsToGrant(spaces, grants, actor, target, path)
    ensures DirectGrants(grants, actor, target) != {} || InheritedGrants(spaces, grants, actor, target) != {}
  {
    var d := WalkFollowsPath(spaces, path, target);
    var end := path[|path| - 1];
    DirectMeansGiven(grants, actor, end);
    if d > 0 {
      var g :| g in DirectGrants(grants, actor, end);
      assert InheritedAt(spaces, grants, actor, Ancestors(spaces, target), d, g);
      assert (d, g) in InheritedGrants(spaces, grants, actor, target);
    }
  }

  /** The least id. */
  ghost function Least(ids: set<Id>): (least: Id)
    requires ids != {}
    ensures least in ids && forall other | other in ids :: least <= other
  {
    LeastExists(ids);
    var g :| g in ids && forall other | other in ids :: g <= other;
    g
  }

  /** The nearest grant, by depth and then id. */
  ghost function Nearest(found: set<(nat, Id)>): (first: (nat, Id))
    requires found != {}
    ensures IsFirst(found, first)
  {
    NearestExists(found);
    var first :| first in found && IsFirst(found, first);
    first
  }

  lemma NearestExists(found: set<(nat, Id)>)
    requires found != {}
    ensures exists first | first in found :: IsFirst(found, first)
  {
    var first := FirstExists(found);
  }

  /** `direct_grant_ids[0]` */
  method FirstDirect(grants: Grants, actor: Actor, target: Id) returns (first: Option<Id>)
    ensures var direct := DirectGrants(grants, actor, target);
            first == if direct == {} then None else Some(Least(direct))
  {
    var direct := DirectGrants(grants, actor, target);
    if direct == {} {
      return None;
    }
    LeastExists(direct);
    var g :| g in direct && forall other | other in direct :: g <= other;
    first := Some(g);
  }

  /** `inherited_grant_ids[0]` */
  method FirstInherited(spaces: Spaces, grants: Grants, actor: Actor, target: Id) returns (first: Option<Id>)
    ensures var inherited := InheritedGrants(spaces, grants, actor, target);
            first == if inherited == {} then None else Some(Nearest(inherited).1)
  {
    var inherited := InheritedGrants(spaces, grants, actor, target);
    if inherited == {} {
      return None;
    }
    NearestExists(inherited);
    var x :| x in inherited && IsFirst(inherited, x);
    first := Some(x.1);
  }

  /** The nearest inherited grant is the actor's, and a path leads to its Space. */
  lemma NearestHasPath(spaces: Spaces, grants: Grants, actor: Actor, target: Id)
    requires InheritedGrants(spaces, grants, actor, target) != {}
    ensures var (d, g) := Nearest(InheritedGrants(spaces, grants, actor, target));
            && g in grants && Held(grants[g], actor)
            && d < |Ancestors(spaces, target)| && Ancestors(spaces, target)[d] == grants[g].resource
            && LoadPath(spaces, target, grants[g].resource).Some?
  {
    var (d, g) := Nearest(InheritedGrants(spaces, grants, actor, target));
    assert (d, g) in InheritedGrants(spaces, grants, actor, target);
    InheritedExactlyWithPath(spaces, grants, actor, target, g);
  }

  datatype Reason = SpaceNotFound | AdminRead | RootRead | DirectGrant | InheritedGrant | AccessDenied

  /** A grant and the Space it is on. */
  datatype Token = Token(grant: Id, space: Id)

  datatype Readability = Readability(reason: Reason, token: Option<Token>)

  predicate IsAllowed(r: Readability) {
    r.reason.AdminRead? || r.reason.RootRead? || r.reason.DirectGrant? || r.reason.InheritedGrant?
  }

  /**
   `canReadSpaceResource` without locks. It allows exactly what the rule allows, and an inherited
   token names a nearest grant.
   */
  method CanReadSpaceResource(spaces: Spaces, grants: Grants, actor: Actor, admin: bool, target: Id) returns (r: Readability)
    ensures IsAllowed(r) <==> MayRead(spaces, grants, actor, admin, target)
    ensures IsAllowed(r) <==> MayReadByRows(spaces, grants, actor, admin, target)
    ensures r.reason.SpaceNotFound? <==> target !in spaces || spaces[target].archived
    ensures r.reason.DirectGrant? ==> DirectGrants(grants, actor, target) != {} && r.token == Some(Token(Least(DirectGrants(grants, actor, target)), target))
    ensures r.reason.InheritedGrant? ==>
              && DirectGrants(grants, actor, target) == {} && InheritedGrants(spaces, grants, actor, target) != {}
              && var (d, g) := Nearest(InheritedGrants(spaces, grants, actor, target));
                 && d < |Ancestors(spaces, target)| && r.token == Some(Token(g, Ancestors(spaces, target)[d]))
                 && forall e, h | (e, h) in InheritedGrants(spaces, grants, actor, target) :: d < e || (d == e && g <= h)
    ensures r.token.Some? ==>
              IsAllowed(r) && !admin && r.token.value.grant in grants && Gives(grants[r.token.value.grant], actor, r.token.value.space)
  {
    MayReadMeaning(spaces, grants, actor, admin, target);
    if !Live(spaces, target) {
      return Readability(SpaceNotFound, None);
    }
    if admin {
      return Readability(AdminRead, None);
    }
    if spaces[target].kind.WorkspaceRoot? {
      return Readability(RootRead, None);
    }
    var direct := FirstDirect(grants, actor, target);
    if direct.Some? {
      return Readability(DirectGrant, Some(Token(direct.value, target)));
    }
    var inherited := FirstInherited(spaces, grants, actor, target);
    if spaces[target].restricted {
      RestrictedInheritsNothing(spaces, grants, actor, target);
    } else if inherited.Some? {
      NearestHasPath(spaces, grants, actor, target);
      return Readability(InheritedGrant, Some(Token(inherited.value, grants[inherited.value].resource)));
    }
    r := Readability(AccessDenied, None);
  }
}
