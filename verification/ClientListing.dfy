/**
 Listing client accounts: the SQL predicate built from an actor's scopes and denials
 keeps exactly the rows whose object decision allows reading them.
 */
module ClientListing {
  import opened Bytes
  import opened Authorization
  import opened Sql

  const READ := "clients.read"

  datatype Account = Account(id: Uuid, manager: Option<Uuid>)

  datatype Visibility =
    | Everything
    | Ids(ids: seq<Uuid>)
    | ManagedByActor(actor: Uuid)
    | IdsOrManagedByActor(ids: seq<Uuid>, actor: Uuid)
    | Nothing

  datatype Denials = Denials(ids: seq<Uuid>, notManagedBy: Option<Uuid>)

  datatype ScopeContribution = All | NamedIds | Managed | NoAccount

  function TargetFor(row: Account, actorId: Uuid): Target {
    Object(TargetContext(ClientAccount, row.id, None, row.manager == Some(actorId), false))
  }

  function ContributionFor(scopeType: ScopeType): ScopeContribution {
    match scopeType
    case Global => All
    case Resource => NamedIds
    case Assigned => Managed
    case Department => NoAccount
    case Own => NoAccount
  }

  function AccountScope(id: Uuid): Scope {
    Scope(Resource, Some(ClientAccount), Some(id))
  }

  /** The denial terms, the same whatever the visibility. */
  function DenialTerms(denied: Denials, row: Account): Tri {
    And(DiffersFromAll(row.id, denied.ids),
        Or(IsNull(denied.notManagedBy), IsDistinctFrom(row.manager, denied.notManagedBy)))
  }

  /** The WHERE clause of the listing. */
  function Where(visibility: Visibility, denied: Denials, row: Account): Tri {
    match visibility
    case Everything => DenialTerms(denied, row)
    case Ids(ids) => And(EqualsAny(row.id, ids), DenialTerms(denied, row))
    case ManagedByActor(actor) => And(Equals(row.manager, Some(actor)), DenialTerms(denied, row))
    case IdsOrManagedByActor(ids, actor) =>
      And(Or(EqualsAny(row.id, ids), Equals(row.manager, Some(actor))), DenialTerms(denied, row))
    case Nothing => False
  }

  /** The denial sets stand for exactly the actor's coherent narrow denials. */
  ghost predicate DeniesExactly(actor: ActorContext, denied: Denials) {
    && StrictlyAscending(denied.ids)
    && (forall id :: id in denied.ids <==> Grant(READ, AccountScope(id)) in actor.denies)
    && denied.notManagedBy == if Grant(READ, Simple(Assigned)) in actor.denies then Some(actor.userId) else None
  }

  method DeniedIds(actor: ActorContext) returns (denied: Denials)
    ensures DeniesExactly(actor, denied)
  {
    var ids: seq<Uuid>, notManagedBy := [], None;
    for i := 0 to |actor.denies|
      invariant forall id :: id in ids <==> Grant(READ, AccountScope(id)) in actor.denies[..i]
      invariant notManagedBy == if Grant(READ, Simple(Assigned)) in actor.denies[..i] then Some(actor.userId) else None
    {
      var denial := actor.denies[i];
      assert actor.denies[..i + 1] == actor.denies[..i] + [denial];
      if denial.code != READ || !IsCoherent(denial.scope) {
        continue;
      }
      if denial.scope.scopeType.Resource? {
        if denial.scope.resourceType == Some(ClientAccount) {
          assert denial.scope == AccountScope(denial.scope.resourceId.value);
          ids := ids + [denial.scope.resourceId.value];
        }
      } else if denial.scope.scopeType.Assigned? {
        notManagedBy := Some(actor.userId);
      }
    }
    assert actor.denies[..|actor.denies|] == actor.denies;
    denied := Denials(SortedDistinct(ids), notManagedBy);
  }

  ghost predicate NamesExactly(scopes: seq<Scope>, ids: seq<Uuid>) {
    StrictlyAscending(ids) && forall id :: id in ids <==> AccountScope(id) in scopes
  }

  /** The visibility stands for exactly the accounts that the coherent scopes reach. */
  ghost predicate ShowsExactly(scopes: seq<Scope>, actorId: Uuid, visibility: Visibility) {
    var manages := Simple(Assigned) in scopes;
    match visibility
    case Everything => Simple(Global) in scopes
    case Ids(ids) => Simple(Global) !in scopes && NamesExactly(scopes, ids) && ids != [] && !manages
    case ManagedByActor(actor) => Simple(Global) !in scopes && NamesExactly(scopes, []) && manages && actor == actorId
    case IdsOrManagedByActor(ids, actor) =>
      Simple(Global) !in scopes && NamesExactly(scopes, ids) && ids != [] && manages && actor == actorId
    case Nothing => Simple(Global) !in scopes && NamesExactly(scopes, []) && !manages
  }

  method VisibilityFor(scopes: seq<Scope>, actorId: Uuid) returns (visibility: Visibility)
    ensures ShowsExactly(scopes, actorId, visibility)
  {
    var ids: seq<Uuid>, manages := [], false;
    for i := 0 to |scopes|
      invariant Simple(Global) !in scopes[..i]
      invariant forall id :: id in ids <==> AccountScope(id) in scopes[..i]
      invariant manages <==> Simple(Assigned) in scopes[..i]
    {
      var scope := scopes[i];
      assert scopes[..i + 1] == scopes[..i] + [scope];
      if !IsCoherent(scope) {
        continue;
      }
      match ContributionFor(scope.scopeType)
      case All =>
        assert scope == Simple(Global);
        return Everything;
      case NamedIds =>
        if scope.resourceType == Some(ClientAccount) {
          assert scope == AccountScope(scope.resourceId.value);
          ids := ids + [scope.resourceId.value];
        }
      case Managed =>
        manages := true;
      case NoAccount =>
    }
    assert scopes[..|scopes|] == scopes;
    var sorted := SortedDistinct(ids);
    assert sorted == [] <==> forall id :: id !in sorted by {
      if sorted != [] { assert sorted[0] in sorted; }
    }
    visibility :=
      if sorted == [] then if manages then ManagedByActor(actorId) else Nothing
      else if manages then IdsOrManagedByActor(sorted, actorId) else Ids(sorted);
  }

  /** How the listing picks its visibility. */
  ghost predicate Chosen(cat: Catalogue, actor: ActorContext, visibility: Visibility) {
    if IsAllowed(Evaluate(cat, actor, READ, Collection)) then visibility == Everything
    else ShowsExactly(EffectiveScopes(cat, actor, READ), actor.userId, visibility)
  }

  lemma DenialTermsAreExact(actor: ActorContext, denied: Denials, row: Account)
    requires DeniesExactly(actor, denied)
    ensures Keeps(DenialTerms(denied, row)) <==> !NarrowlyDenied(actor, READ, TargetFor(row, actor.userId))
  {
    var target := TargetFor(row, actor.userId);
    ArrayComparisons(row.id, denied.ids);
    assert ScopeCovers(AccountScope(row.id), actor, target);
    if NarrowlyDenied(actor, READ, target) {
      var g :| g in actor.denies && g.code == READ && !g.scope.scopeType.Global? && ScopeCovers(g.scope, actor, target);
      assert g.scope == AccountScope(row.id) || g.scope == Simple(Assigned);
      assert g == Grant(READ, g.scope);
    } else {
      assert !(Grant(READ, AccountScope(row.id)) in actor.denies);
      assert row.manager == Some(actor.userId) ==> ScopeCovers(Simple(Assigned), actor, target);
      assert row.manager == Some(actor.userId) ==> !(Grant(READ, Simple(Assigned)) in actor.denies);
    }
  }

  /** The visibility's own term, without the denials. */
  function Shown(visibility: Visibility, row: Account): Tri {
    Where(visibility, Denials([], None), row)
  }

  lemma ShownIsExact(scopes: seq<Scope>, actor: ActorContext, visibility: Visibility, row: Account)
    requires ShowsExactly(scopes, actor.userId, visibility)
    ensures Keeps(Shown(visibility, row)) <==>
              exists s :: s in scopes && ScopeCovers(s, actor, TargetFor(row, actor.userId))
  {
    var target := TargetFor(row, actor.userId);
    if visibility.Ids? || visibility.IdsOrManagedByActor? {
      ArrayComparisons(row.id, visibility.ids);
    }
    assert ScopeCovers(AccountScope(row.id), actor, target) && ScopeCovers(Simple(Global), actor, target);
    assert row.manager == Some(actor.userId) <==> ScopeCovers(Simple(Assigned), actor, target);
    if s :| s in scopes && ScopeCovers(s, actor, target) {
      assert s == AccountScope(row.id) || s == Simple(Global) || s == Simple(Assigned);
    }
  }

  lemma WhereSplits(visibility: Visibility, denied: Denials, row: Account)
    ensures Keeps(Where(visibility, denied, row)) <==> Keeps(Shown(visibility, row)) && Keeps(DenialTerms(denied, row))
  {
  }

  /** The rows the listing should return: those the actor may read, except that for the owner denials still count. */
  ghost predicate Listed(cat: Catalogue, actor: ActorContext, row: Account) {
    var target := TargetFor(row, actor.userId);
    IsAllowed(Evaluate(cat, actor, READ, target)) && !(actor.isRoot && NarrowlyDenied(actor, READ, target))
  }

  /**
   The listing keeps a row, its manager NULL or not, exactly if reading that account is
   allowed. The owner's object decisions ignore denials and its listing does not: the
   two agree for the owner if it has no denials, and it never gains one.
   */
  lemma ListingIsDecision(cat: Catalogue, actor: ActorContext, visibility: Visibility, denied: Denials, row: Account)
    requires AllCoherent(actor) && Chosen(cat, actor, visibility) && DeniesExactly(actor, denied)
    ensures Keeps(Where(visibility, denied, row)) <==> Listed(cat, actor, row)
    ensures !actor.isRoot || actor.denies == [] ==>
              (Keeps(Where(visibility, denied, row)) <==>
                 IsAllowed(Evaluate(cat, actor, READ, TargetFor(row, actor.userId))))
  {
    var target := TargetFor(row, actor.userId);
    WhereSplits(visibility, denied, row);
    DenialTermsAreExact(actor, denied, row);
    if !actor.isRoot {
      CollectionNeedsGlobal(cat, actor, READ);
      assert ShowsExactly(EffectiveScopes(cat, actor, READ), actor.userId, visibility);
      ShownIsExact(EffectiveScopes(cat, actor, READ), actor, visibility, row);
      EffectiveReach(cat, actor, READ, target);
      EvaluateAllowsExactly(cat, actor, READ, target);
      if GloballyDenied(actor.denies, READ) {
        GlobalDenialRefuses(cat, actor, READ, target);
      } else {
        NarrowIsAll(actor, READ, target);
      }
    }
  }

  /** A visibility of Nothing is always answered with a refusal, and every account is then refused one by one. */
  lemma NothingIsRefused(cat: Catalogue, actor: ActorContext, denied: Denials, row: Account)
    requires AllCoherent(actor) && Chosen(cat, actor, Nothing) && DeniesExactly(actor, denied)
    ensures !IsAllowed(Evaluate(cat, actor, READ, Collection))
    ensures !IsAllowed(Evaluate(cat, actor, READ, TargetFor(row, actor.userId)))
  {
    ListingIsDecision(cat, actor, Nothing, denied, row);
  }

  /** The actor may not read the collection, and no scope of its own reaches any account. */
  ghost predicate SeesNoAccount(cat: Catalogue, actor: ActorContext) {
    && !IsAllowed(Evaluate(cat, actor, READ, Collection))
    && forall s, row | s in EffectiveScopes(cat, actor, READ) :: !ScopeCovers(s, actor, TargetFor(row, actor.userId))
  }

  lemma NothingIsSeen(cat: Catalogue, actor: ActorContext, visibility: Visibility)
    requires Chosen(cat, actor, visibility)
    ensures visibility.Nothing? <==> SeesNoAccount(cat, actor)
  {
    var scopes := EffectiveScopes(cat, actor, READ);
    if !IsAllowed(Evaluate(cat, actor, READ, Collection)) {
      forall row ensures Keeps(Shown(visibility, row)) <==> exists s :: s in scopes && ScopeCovers(s, actor, TargetFor(row, actor.userId)) {
        ShownIsExact(scopes, actor, visibility, row);
      }
      if !visibility.Nothing? {
        var row := Account(if visibility.Ids? || visibility.IdsOrManagedByActor? then visibility.ids[0] else 0, Some(actor.userId));
        if visibility.Ids? || visibility.IdsOrManagedByActor? { ArrayComparisons(row.id, visibility.ids); }
        assert Keeps(Shown(visibility, row));
      }
    }
  }

  /** The listing as a whole: refused, or exactly the readable accounts, in table order. */
  method List(cat: Catalogue, actor: ActorContext, table: seq<Account>) returns (result: Option<seq<Account>>)
    requires AllCoherent(actor)
    ensures result.None? <==> SeesNoAccount(cat, actor)
    ensures result.None? ==> forall row :: !IsAllowed(Evaluate(cat, actor, READ, TargetFor(row, actor.userId)))
    ensures result.Some? ==> result.value == Filter(row => Listed(cat, actor, row), table)
  {
    var decision := EvaluateInOrder(cat, actor, READ, Collection);
    var visibility := Everything;
    if !IsAllowed(decision) {
      visibility := VisibilityFor(EffectiveScopes(cat, actor, READ), actor.userId);
    }
    var denied := DeniedIds(actor);
    NothingIsSeen(cat, actor, visibility);
    if visibility.Nothing? {
      forall row ensures !IsAllowed(Evaluate(cat, actor, READ, TargetFor(row, actor.userId))) {
        NothingIsRefused(cat, actor, denied, row);
      }
      return None;
    }
    var kept := [];
    for i := 0 to |table|
      invariant kept == Filter(row => Listed(cat, actor, row), table[..i])
    {
      assert table[..i + 1][..i] == table[..i];
      ListingIsDecision(cat, actor, visibility, denied, table[i]);
      if Keeps(Where(visibility, denied, table[i])) {
        kept := kept + [table[i]];
      }
    }
    assert table[..|table|] == table;
    result := Some(kept);
  }
}
