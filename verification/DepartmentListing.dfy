/**
 Listing departments. The filter is a set of ids computed from the actor's scopes,
 denials and department memberships.
 */
module DepartmentListing {
  import opened Bytes
  import opened Authorization
  import opened Sql

  const READ := "departments.read"

  datatype Visibility = Everything | Only(ids: seq<Uuid>) | AllExcept(ids: seq<Uuid>) | Nothing

  /** The object decision's target; `isMember` is looked up separately from the actor's departments. */
  function TargetFor(id: Uuid, isMember: bool): Target {
    Object(TargetContext(DepartmentResource, id, Some(id), isMember, false))
  }

  function Where(visibility: Visibility, id: Uuid): Tri {
    match visibility
    case Everything => True
    case Only(ids) => EqualsAny(id, ids)
    case AllExcept(ids) => DiffersFromAll(id, ids)
    case Nothing => False
  }

  function DepartmentScope(id: Uuid): Scope {
    Scope(Resource, Some(DepartmentResource), Some(id))
  }

  /** Some of the scopes, GLOBAL aside, stands for department `id`. */
  predicate NamesId(scopes: seq<Scope>, actor: ActorContext, id: Uuid) {
    || ((Simple(Department) in scopes || Simple(Assigned) in scopes) && id in actor.departmentIds)
    || DepartmentScope(id) in scopes
  }

  /** Some of the denials, GLOBAL aside, stands for department `id`. */
  predicate DeniesId(denies: seq<Grant>, actor: ActorContext, id: Uuid) {
    || ((Grant(READ, Simple(Department)) in denies || Grant(READ, Simple(Assigned)) in denies) && id in actor.departmentIds)
    || Grant(READ, DepartmentScope(id)) in denies
  }

  /** The ids for which the actor has a narrow denial. */
  ghost predicate DeniesExactly(actor: ActorContext, denied: seq<Uuid>) {
    && StrictlyAscending(denied)
    && forall id :: id in denied <==> DeniesId(actor.denies, actor, id)
  }

  method DeniedIds(actor: ActorContext) returns (denied: seq<Uuid>)
    ensures DeniesExactly(actor, denied)
  {
    var ids: seq<Uuid> := [];
    for i := 0 to |actor.denies|
      invariant forall id :: id in ids <==> DeniesId(actor.denies[..i], actor, id)
    {
      var denial := actor.denies[i];
      assert actor.denies[..i + 1] == actor.denies[..i] + [denial];
      if denial.code != READ || !IsCoherent(denial.scope) {
        continue;
      }
      match denial.scope.scopeType
      case Department => ids := ids + actor.departmentIds;
      case Assigned => ids := ids + actor.departmentIds;
      case Resource =>
        if denial.scope.resourceType == Some(DepartmentResource) {
          assert denial.scope == DepartmentScope(denial.scope.resourceId.value);
          ids := ids + [denial.scope.resourceId.value];
        }
      case Global =>
      case Own =>
    }
    assert actor.denies[..|actor.denies|] == actor.denies;
    denied := SortedDistinct(ids);
  }

  method EverythingMinusDenials(actor: ActorContext) returns (visibility: Visibility)
    ensures visibility == Everything ==> DeniesExactly(actor, [])
    ensures visibility != Everything ==> visibility.AllExcept? && DeniesExactly(actor, visibility.ids) && visibility.ids != []
  {
    var denied := DeniedIds(actor);
    visibility := if denied == [] then Everything else AllExcept(denied);
  }

  /** Without the ids that are denied, order kept. */
  function Retained(ids: seq<Uuid>, denied: seq<Uuid>): (r: seq<Uuid>)
    requires StrictlyAscending(ids)
    ensures StrictlyAscending(r)
    ensures forall id :: id in r <==> id in ids && id !in denied
  {
    if ids == [] then []
    else
      var before := Retained(ids[..|ids| - 1], denied);
      assert forall i | 0 <= i < |before| :: before[i] in ids[..|ids| - 1];
      if ids[|ids| - 1] in denied then before else before + [ids[|ids| - 1]]
  }

  /** The visibility stands for exactly the ids that a scope names and no denial does. */
  ghost predicate ShowsExactly(scopes: seq<Scope>, actor: ActorContext, visibility: Visibility) {
    match visibility
    case Everything => Simple(Global) in scopes
    case AllExcept(_) => false
    case Only(ids) =>
      && Simple(Global) !in scopes && ids != [] && StrictlyAscending(ids)
      && forall id :: id in ids <==> NamesId(scopes, actor, id) && !DeniesId(actor.denies, actor, id)
    case Nothing =>
      && Simple(Global) !in scopes
      && forall id :: NamesId(scopes, actor, id) ==> DeniesId(actor.denies, actor, id)
  }

  method VisibilityFor(scopes: seq<Scope>, actor: ActorContext) returns (visibility: Visibility)
    ensures ShowsExactly(scopes, actor, visibility)
  {
    var ids: seq<Uuid>, hadUsableScope := [], false;
    for i := 0 to |scopes|
      invariant Simple(Global) !in scopes[..i]
      invariant forall id :: id in ids <==> NamesId(scopes[..i], actor, id)
      invariant !hadUsableScope ==> ids == []
    {
      var scope := scopes[i];
      assert scopes[..i + 1] == scopes[..i] + [scope];
      if !IsCoherent(scope) {
        continue;
      }
      match scope.scopeType
      case Global =>
        assert scope == Simple(Global);
        return Everything;
      case Resource =>
        hadUsableScope := true;
        if scope.resourceType == Some(DepartmentResource) {
          assert scope == DepartmentScope(scope.resourceId.value);
          ids := ids + [scope.resourceId.value];
        }
      case Department =>
        hadUsableScope := true;
        ids := ids + actor.departmentIds;
      case Assigned =>
        hadUsableScope := true;
        ids := ids + actor.departmentIds;
      case Own =>
    }
    assert scopes[..|scopes|] == scopes;
    var denied := DeniedIds(actor);
    var retained := Retained(SortedDistinct(ids), denied);
    assert hadUsableScope || retained == [] by {
      if retained != [] { assert retained[0] in ids; }
    }
    if retained == [] {
      forall id | NamesId(scopes, actor, id) ensures DeniesId(actor.denies, actor, id) {
        assert id !in retained;
      }
    }
    visibility := if !hadUsableScope || retained == [] then Nothing else Only(retained);
  }

  /** How the listing picks its visibility. */
  ghost predicate Chosen(cat: Catalogue, actor: ActorContext, visibility: Visibility) {
    if IsAllowed(Evaluate(cat, actor, READ, Collection)) then
      if visibility.Everything? then DeniesExactly(actor, [])
      else visibility.AllExcept? && DeniesExactly(actor, visibility.ids)
    else ShowsExactly(EffectiveScopes(cat, actor, READ), actor, visibility)
  }

  /** The fact the listing goes by: membership as loaded with the actor. */
  function ListedTarget(actor: ActorContext, id: Uuid): Target {
    TargetFor(id, id in actor.departmentIds)
  }

  lemma NamesIdIsReach(scopes: seq<Scope>, actor: ActorContext, id: Uuid)
    ensures NamesId(scopes, actor, id) <==>
              exists s :: s in scopes && !s.scopeType.Global? && ScopeCovers(s, actor, ListedTarget(actor, id))
  {
  }

  lemma DeniedIsNamed(actor: ActorContext, id: Uuid)
    ensures DeniesId(actor.denies, actor, id) <==> NarrowlyDenied(actor, READ, ListedTarget(actor, id))
  {
  }

  /** The rows the listing should return: those the actor may read, except that for the owner denials still count. */
  ghost predicate Listed(cat: Catalogue, actor: ActorContext, id: Uuid) {
    var target := ListedTarget(actor, id);
    IsAllowed(Evaluate(cat, actor, READ, target)) && !(actor.isRoot && NarrowlyDenied(actor, READ, target))
  }

  /** The listing keeps a department exactly if reading it is allowed, by the memberships loaded with the actor. */
  lemma ListingIsDecision(cat: Catalogue, actor: ActorContext, visibility: Visibility, id: Uuid)
    requires AllCoherent(actor) && Chosen(cat, actor, visibility)
    ensures Keeps(Where(visibility, id)) <==> Listed(cat, actor, id)
  {
    var target := ListedTarget(actor, id);
    ArrayComparisons(id, if visibility.Only? || visibility.AllExcept? then visibility.ids else []);
    DeniedIsNamed(actor, id);
    EvaluateAllowsExactly(cat, actor, READ, target);
    CollectionNeedsGlobal(cat, actor, READ);
    if !actor.isRoot {
      EffectiveReach(cat, actor, READ, target);
      EvaluateAllowsExactly(cat, actor, READ, Collection);
      if GloballyDenied(actor.denies, READ) {
        GlobalDenialRefuses(cat, actor, READ, target);
        GlobalDenialRefuses(cat, actor, READ, Collection);
      } else {
        NarrowIsAll(actor, READ, target);
        ReachWithoutGlobal(cat, actor, id);
      }
    }
  }

  lemma ReachWithoutGlobal(cat: Catalogue, actor: ActorContext, id: Uuid)
    ensures var scopes := EffectiveScopes(cat, actor, READ);
            (exists s :: s in scopes && ScopeCovers(s, actor, ListedTarget(actor, id))) <==>
              Simple(Global) in scopes || NamesId(scopes, actor, id)
  {
    var scopes := EffectiveScopes(cat, actor, READ);
    NamesIdIsReach(scopes, actor, id);
    assert ScopeCovers(Simple(Global), actor, ListedTarget(actor, id));
    if s :| s in scopes && ScopeCovers(s, actor, ListedTarget(actor, id)) {
      assert s.scopeType.Global? ==> s == Simple(Global);
    }
  }

  /** The unfiltered arm, which skips denials, is taken only for an actor allowed the whole collection. */
  lemma UnfilteredArmIsUnreachable(cat: Catalogue, actor: ActorContext)
    requires AllCoherent(actor) && !IsAllowed(Evaluate(cat, actor, READ, Collection))
    ensures !ShowsExactly(EffectiveScopes(cat, actor, READ), actor, Everything)
  {
  }

  /** A visibility of Nothing is always answered with a refusal, and every department is then refused one by one. */
  lemma NothingIsRefused(cat: Catalogue, actor: ActorContext, id: Uuid)
    requires AllCoherent(actor) && Chosen(cat, actor, Nothing)
    ensures !IsAllowed(Evaluate(cat, actor, READ, Collection))
    ensures !IsAllowed(Evaluate(cat, actor, READ, ListedTarget(actor, id)))
  {
    ListingIsDecision(cat, actor, Nothing, id);
  }

  lemma SomethingIsReadable(cat: Catalogue, actor: ActorContext, visibility: Visibility)
    requires AllCoherent(actor) && Chosen(cat, actor, visibility)
    requires !visibility.Nothing? && !IsAllowed(Evaluate(cat, actor, READ, Collection))
    ensures exists id :: IsAllowed(Evaluate(cat, actor, READ, ListedTarget(actor, id)))
  {
    UnfilteredArmIsUnreachable(cat, actor);
    var id := visibility.ids[0];
    ArrayComparisons(id, visibility.ids);
    ListingIsDecision(cat, actor, visibility, id);
  }

  method List(cat: Catalogue, actor: ActorContext, table: seq<Uuid>) returns (result: Option<seq<Uuid>>)
    requires AllCoherent(actor)
    ensures result.None? <==>
              !IsAllowed(Evaluate(cat, actor, READ, Collection)) && forall id :: !IsAllowed(Evaluate(cat, actor, READ, ListedTarget(actor, id)))
    ensures result.Some? ==> result.value == Filter((id: Uuid) => Listed(cat, actor, id), table)
  {
    var decision := EvaluateInOrder(cat, actor, READ, Collection);
    var visibility;
    if IsAllowed(decision) {
      visibility := EverythingMinusDenials(actor);
    } else {
      visibility := VisibilityFor(EffectiveScopes(cat, actor, READ), actor);
    }
    if !visibility.Nothing? && !IsAllowed(decision) {
      SomethingIsReadable(cat, actor, visibility);
    }
    if visibility.Nothing? {
      forall id ensures !IsAllowed(Evaluate(cat, actor, READ, ListedTarget(actor, id))) {
        NothingIsRefused(cat, actor, id);
      }
      return None;
    }
    var kept := [];
    for i := 0 to |table|
      invariant kept == Filter((id: Uuid) => Listed(cat, actor, id), table[..i])
    {
      assert table[..i + 1][..i] == table[..i];
      ListingIsDecision(cat, actor, visibility, table[i]);
      if Keeps(Where(visibility, table[i])) {
        kept := kept + [table[i]];
      }
    }
    assert table[..|table|] == table;
    result := Some(kept);
  }

  // ---------------------------------------------------------------------------
  // Where the two facts about membership differ
  // ---------------------------------------------------------------------------

  /** The grants for reading departments, ASSIGNED aside, that reach department `id`. */
  ghost predicate OtherwiseReached(grants: seq<Grant>, actor: ActorContext, id: Uuid) {
    exists g :: g in grants && g.code == READ && !g.scope.scopeType.Assigned? && ScopeCovers(g.scope, actor, TargetFor(id, false))
  }

  lemma ReachByMembership(grants: seq<Grant>, actor: ActorContext, id: Uuid, isMember: bool)
    ensures Reaches(grants, READ, actor, TargetFor(id, isMember)) <==>
              OtherwiseReached(grants, actor, id) || (isMember && Grant(READ, Simple(Assigned)) in grants)
  {
  }

  /**
   The membership table and the actor's departments differ for an archived department.
   The object decision then departs from the listing exactly when an ASSIGNED grant or
   denial is what decides.
   */
  lemma DecisionsDifferExactly(cat: Catalogue, actor: ActorContext, id: Uuid, isMember: bool)
    requires !actor.isRoot
    ensures IsAllowed(Evaluate(cat, actor, READ, TargetFor(id, isMember))) !=
              IsAllowed(Evaluate(cat, actor, READ, ListedTarget(actor, id))) <==>
              && isMember != (id in actor.departmentIds)
              && EnvelopePermits(cat, READ, actor.principalType)
              && !OtherwiseReached(actor.denies, actor, id)
              && (if OtherwiseReached(actor.allows, actor, id) then Grant(READ, Simple(Assigned)) in actor.denies
                  else Grant(READ, Simple(Assigned)) in actor.allows && Grant(READ, Simple(Assigned)) !in actor.denies)
  {
    var listed := id in actor.departmentIds;
    EvaluateAllowsExactly(cat, actor, READ, TargetFor(id, isMember));
    EvaluateAllowsExactly(cat, actor, READ, ListedTarget(actor, id));
    ReachByMembership(actor.allows, actor, id, isMember);
    ReachByMembership(actor.denies, actor, id, isMember);
    ReachByMembership(actor.allows, actor, id, listed);
    ReachByMembership(actor.denies, actor, id, listed);
  }

  /** A member of an archived department may read it with an ASSIGNED grant, and does not find it in the listing. */
  lemma ArchivedDepartmentDiffers(cat: Catalogue, userId: Uuid, id: Uuid)
    requires EnvelopePermits(cat, READ, Internal)
    ensures var actor := ActorContext(userId, Internal, false, [], [Grant(READ, Simple(Assigned))], []);
            IsAllowed(Evaluate(cat, actor, READ, TargetFor(id, true))) && !Listed(cat, actor, id)
  {
  }
}
