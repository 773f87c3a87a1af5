/** When exactly a request is performed, what it then brings about, and that role edits are not lost. */
module AuthorizationRequests {
  import opened Bytes
  import opened Authorization
  import opened AuthorizationSteps

  // ---------------------------------------------------------------------------
  // When a request is performed
  // ---------------------------------------------------------------------------

  /** The actor may use `code` on all roles, with a recent second factor. */
  ghost predicate TouchesRoles(cat: Catalogue, who: Principal, code: string) {
    IsAllowed(Evaluate(cat, who.actor, code, Collection)) && who.stepUp
  }

  /** The actor may use `code` on the person, with a recent second factor if it is dangerous. */
  ghost predicate TouchesPerson(cat: Catalogue, who: Principal, code: string, u: Uuid) {
    && IsAllowed(Evaluate(cat, who.actor, code, Object(TargetContext(User, u, None, false, who.actor.userId == u))))
    && (IsDangerous(cat, code) ==> who.stepUp)
  }

  /** No stored permission is at RESOURCE scope, which could not be read back. */
  ghost predicate IsReadable(permissions: seq<RolePermission>) {
    forall p | p in permissions :: !p.scopeType.Resource?
  }

  ghost predicate MayAuthor(cat: Catalogue, who: Principal, allowedType: PrincipalType, permissions: seq<RolePermission>) {
    forall p | p in permissions :: FitsRole(cat, allowedType, p) && Justified(cat, who, p.code, Simple(p.scopeType))
  }

  ghost predicate MayGrant(cat: Catalogue, db: Tables, who: Principal, u: Uuid, code: string, scope: Scope) {
    && IsOther(db, who, u) && EnvelopePermits(cat, code, db.users[u].principalType)
    && IsCoherent(scope) && Justified(cat, who, code, scope)
  }

  /** The actor has authority over an existing custom role with what it contains or is to contain. */
  ghost predicate MayEdit(cat: Catalogue, db: Tables, who: Principal, code: string, r: Uuid, contents: Option<seq<RolePermission>>) {
    && TouchesRoles(cat, who, code) && r in db.roles && IsReadable(db.roles[r].permissions) && !db.roles[r].isSystem
    && MayAuthor(cat, who, db.roles[r].allowedType, if contents.Some? then contents.value else db.roles[r].permissions)
  }

  /** The actor may decide whether another person of the role's type holds the role. */
  ghost predicate MayAssign(cat: Catalogue, db: Tables, who: Principal, u: Uuid, r: Uuid) {
    && IsOther(db, who, u) && TouchesPerson(cat, who, ROLES_ASSIGN, u)
    && r in db.roles && IsReadable(db.roles[r].permissions) && db.roles[r].allowedType == db.users[u].principalType
    && (who.actor.isRoot ||
        forall p | p in db.roles[r].permissions :: MayGrant(cat, db, who, u, p.code, Simple(p.scopeType)))
  }

  ghost predicate IsPermitted(cat: Catalogue, db: Tables, who: Principal, request: Request) {
    match request
    case CreateRole(r, roleCode, allowedType, items) =>
      && ValidateRolePermissions(cat, items).Ok? && TouchesRoles(cat, who, ROLES_CREATE)
      && MayAuthor(cat, who, allowedType, ValidateRolePermissions(cat, items).value)
      && r !in db.roles && forall k | k in db.roles :: db.roles[k].code != roleCode
    case UpdateRole(r, version, replacement) =>
      && (replacement.Some? ==> ValidateRolePermissions(cat, replacement.value).Ok?)
      && MayEdit(cat, db, who, ROLES_UPDATE, r,
                 if replacement.Some? then Some(ValidateRolePermissions(cat, replacement.value).value) else None)
      && db.roles[r].version == version
    case DeleteRole(r) => MayEdit(cat, db, who, ROLES_DELETE, r, None) && forall a | a in db.assignments :: a.roleId != r
    case AssignRole(u, r) =>
      MayAssign(cat, db, who, u, r) && !db.users[u].isArchived && Assignment(u, r) !in db.assignments
    case UnassignRole(u, r) => MayAssign(cat, db, who, u, r) && Assignment(u, r) in db.assignments
    case CreateOverride(id, o) =>
      && IsLive(o, db.clock) && MayGrant(cat, db, who, o.userId, o.code, ScopeOf(o))
      && TouchesPerson(cat, who, PERMISSIONS_DELEGATE, o.userId) && !db.users[o.userId].isArchived
      && id !in db.overrides && forall k | k in db.overrides :: !SameKey(db.overrides[k], o)
    case DeleteOverride(u, id) =>
      && id in db.overrides && db.overrides[id].userId == u && TouchesPerson(cat, who, PERMISSIONS_DELEGATE, u)
      && MayGrant(cat, db, who, u, db.overrides[id].code, ScopeOf(db.overrides[id]))
  }

  lemma AuthoringIsExact(cat: Catalogue, who: Principal, isSystem: bool, allowedType: PrincipalType, permissions: seq<RolePermission>)
    requires IsReadable(permissions)
    ensures CheckRoleAuthoring(cat, who.actor, who.stepUp, isSystem, allowedType, AsGrants(permissions)).None? <==>
              !isSystem && MayAuthor(cat, who, allowedType, permissions)
  {
    EachRolePermissionIsChecked(cat, who.actor, who.stepUp, allowedType, AsGrants(permissions));
    forall p | p in permissions ensures Grant(p.code, Simple(p.scopeType)) in AsGrants(permissions) {
      AsGrantsHas(permissions, p);
    }
    AsGrantsOnly(permissions);
  }

  lemma AsGrantsOnly(permissions: seq<RolePermission>)
    ensures forall g | g in AsGrants(permissions) ::
              exists p :: p in permissions && g == Grant(p.code, Simple(p.scopeType))
  {
    forall g | g in AsGrants(permissions) ensures exists p :: p in permissions && g == Grant(p.code, Simple(p.scopeType)) {
      var i :| 0 <= i < |permissions| && AsGrants(permissions)[i] == g;
      assert permissions[i] in permissions;
    }
  }

  lemma EditIsExact(cat: Catalogue, db: Tables, who: Principal, code: string, r: Uuid, contents: Option<seq<RolePermission>>)
    requires contents.Some? ==> IsReadable(contents.value)
    ensures CheckRole(cat, db, who, code, r, contents).None? <==> MayEdit(cat, db, who, code, r, contents)
  {
    if r in db.roles && IsReadable(db.roles[r].permissions) {
      AuthoringIsExact(cat, who, db.roles[r].isSystem, db.roles[r].allowedType,
                       if contents.Some? then contents.value else db.roles[r].permissions);
    }
  }

  lemma GrantIsExact(cat: Catalogue, db: Tables, who: Principal, u: Uuid, code: string, scope: Scope)
    requires u in db.users
    ensures CheckPermissionGrant(cat, who.actor, SubjectOf(db, u), who.stepUp, code, scope).None? <==>
              MayGrant(cat, db, who, u, code, scope)
  {
  }

  lemma AssignmentIsExact(cat: Catalogue, db: Tables, who: Principal, u: Uuid, r: Uuid)
    ensures CheckAssignment(cat, db, who, u, r).None? <==> MayAssign(cat, db, who, u, r)
  {
    if u in db.users && r in db.roles {
      var permissions := db.roles[r].permissions;
      EachGrantIsChecked(cat, who.actor, SubjectOf(db, u), who.stepUp, AsGrants(permissions));
      AsGrantsOnly(permissions);
      forall p | p in permissions
        ensures Grant(p.code, Simple(p.scopeType)) in AsGrants(permissions)
        ensures CheckPermissionGrant(cat, who.actor, SubjectOf(db, u), who.stepUp, p.code, Simple(p.scopeType)).None? <==>
                  MayGrant(cat, db, who, u, p.code, Simple(p.scopeType))
      {
        AsGrantsHas(permissions, p);
        GrantIsExact(cat, db, who, u, p.code, Simple(p.scopeType));
      }
    }
  }

  lemma ValidatedIsReadable(cat: Catalogue, items: seq<PermissionInput>)
    ensures ValidateRolePermissions(cat, items).Ok? ==> IsReadable(ValidateRolePermissions(cat, items).value)
  {
    ValidateItemsIsExact(cat, items, {});
  }

  /** A request is performed exactly if it is permitted: nothing it needs is left unchecked and nothing else stands in its way. */
  lemma DecideIsExact(cat: Catalogue, db: Tables, who: Principal, request: Request)
    ensures Decide(cat, db, who, request).Ok? <==> IsPermitted(cat, db, who, request)
  {
    match request
    case CreateRole(_, _, allowedType, items) =>
      ValidatedIsReadable(cat, items);
      var validated := ValidateRolePermissions(cat, items);
      if validated.Ok? { AuthoringIsExact(cat, who, false, allowedType, validated.value); }
    case UpdateRole(r, _, replacement) =>
      if replacement.None? {
        EditIsExact(cat, db, who, ROLES_UPDATE, r, None);
      } else {
        ValidatedIsReadable(cat, replacement.value);
        var validated := ValidateRolePermissions(cat, replacement.value);
        if validated.Ok? { EditIsExact(cat, db, who, ROLES_UPDATE, r, Some(validated.value)); }
      }
    case DeleteRole(r) =>
      EditIsExact(cat, db, who, ROLES_DELETE, r, None);
      assert Holders(db, r) == {} <==> forall a | a in db.assignments :: a.roleId != r by {
        assert forall a | a in db.assignments && a.roleId == r :: a.userId in Holders(db, r);
      }
    case AssignRole(u, r) => AssignmentIsExact(cat, db, who, u, r);
    case UnassignRole(u, r) => AssignmentIsExact(cat, db, who, u, r);
    case CreateOverride(_, o) =>
      if o.userId in db.users { GrantIsExact(cat, db, who, o.userId, o.code, ScopeOf(o)); }
    case DeleteOverride(u, id) =>
      if u in db.users && id in db.overrides {
        GrantIsExact(cat, db, who, u, db.overrides[id].code, ScopeOf(db.overrides[id]));
      }
  }

  // ---------------------------------------------------------------------------
  // How a request is refused
  // ---------------------------------------------------------------------------

  /** The permission that the endpoint itself asks for. */
  function CodeOf(request: Request): string {
    match request
    case CreateRole(_, _, _, _) => ROLES_CREATE
    case UpdateRole(_, _, _) => ROLES_UPDATE
    case DeleteRole(_) => ROLES_DELETE
    case AssignRole(_, _) => ROLES_ASSIGN
    case UnassignRole(_, _) => ROLES_ASSIGN
    case CreateOverride(_, _) => PERMISSIONS_DELEGATE
    case DeleteOverride(_, _) => PERMISSIONS_DELEGATE
  }

  /** The person a request is about; roles are nobody's. */
  function PersonOf(request: Request): Option<Uuid> {
    match request
    case AssignRole(u, _) => Some(u)
    case UnassignRole(u, _) => Some(u)
    case CreateOverride(_, o) => Some(o.userId)
    case DeleteOverride(u, _) => Some(u)
    case _ => None
  }

  /** The actor has the endpoint's permission where it asks for it. */
  ghost predicate HasPermission(cat: Catalogue, who: Principal, request: Request) {
    match PersonOf(request)
    case None => IsAllowed(Evaluate(cat, who.actor, CodeOf(request), Collection))
    case Some(u) => IsAllowed(Evaluate(cat, who.actor, CodeOf(request), Object(TargetContext(User, u, None, false, who.actor.userId == u))))
  }

  /** Everyone who edits roles, and whoever uses a dangerous permission, has to have proved a second factor. */
  ghost predicate HasFactor(cat: Catalogue, who: Principal, request: Request) {
    who.stepUp || (PersonOf(request).Some? && !IsDangerous(cat, CodeOf(request)))
  }

  ghost predicate IsWellFormed(cat: Catalogue, db: Tables, request: Request) {
    match request
    case CreateRole(_, _, _, items) => ValidateRolePermissions(cat, items).Ok?
    case UpdateRole(_, _, replacement) => replacement.Some? ==> ValidateRolePermissions(cat, replacement.value).Ok?
    case CreateOverride(_, o) => o.code in cat && IsCoherent(ScopeOf(o)) && (o.expiresAt.Some? ==> db.clock < o.expiresAt.value)
    case _ => true
  }

  /** The person a request is about is there. */
  ghost predicate FindsPerson(db: Tables, request: Request) {
    PersonOf(request).Some? ==> PersonOf(request).value in db.users
  }

  /** A client is told that nothing is there, where anyone else is told that it is not permitted. */
  lemma DoorRefusalsAreExact(cat: Catalogue, db: Tables, who: Principal, request: Request)
    requires IsWellFormed(cat, db, request) && FindsPerson(db, request)
    ensures !HasPermission(cat, who, request) ==>
              Decide(cat, db, who, request) ==
                Err(if CodeOf(request) !in cat then UnknownPermission
                    else if who.actor.principalType.Client? then NotFound else PermissionDenied)
    ensures HasPermission(cat, who, request) && !HasFactor(cat, who, request) ==>
              Decide(cat, db, who, request) == Err(StepUpRequired)
  {
  }

  lemma AbsentPersonIsNotFound(cat: Catalogue, db: Tables, who: Principal, request: Request)
    requires IsWellFormed(cat, db, request) && !FindsPerson(db, request)
    ensures Decide(cat, db, who, request) == Err(NotFound)
  {
  }

  /**
   Who lacks the permission or the factor is answered the same whatever the tables hold, but
   for whether the person asked about exists: whether a role or an override does is not shown.
   */
  lemma ClosedDoorShowsNothing(cat: Catalogue, a: Tables, b: Tables, who: Principal, request: Request)
    requires !HasPermission(cat, who, request) || !HasFactor(cat, who, request)
    requires FindsPerson(a, request) <==> FindsPerson(b, request)
    requires a.clock == b.clock
    ensures Decide(cat, a, who, request) == Decide(cat, b, who, request) && Decide(cat, a, who, request).Err?
  {
    if IsWellFormed(cat, a, request) {
      if FindsPerson(a, request) {
        DoorRefusalsAreExact(cat, a, who, request);
        DoorRefusalsAreExact(cat, b, who, request);
      } else {
        AbsentPersonIsNotFound(cat, a, who, request);
        AbsentPersonIsNotFound(cat, b, who, request);
      }
    }
  }

  /** A refusal that is not about a state of the tables that someone else could have brought about. */
  predicate IsAboutAuthority(refusal: Option<Refusal>) {
    refusal.Some? ==>
      match refusal.value
      case VersionConflict => false
      case RoleInUse => false
      case AlreadyAssigned => false
      case AlreadyExists => false
      case SubjectArchived => false
      case _ => true
  }

  lemma {:induction false} GrantsAreAboutAuthority(
    cat: Catalogue, actor: ActorContext, subject: Subject, stepUp: bool, permissions: seq<Grant>)
    ensures IsAboutAuthority(CheckEachGrant(cat, actor, subject, stepUp, permissions))
  {
    if permissions != [] {
      GrantsAreAboutAuthority(cat, actor, subject, stepUp, permissions[1..]);
    }
  }

  lemma {:induction false} ContentsAreAboutAuthority(
    cat: Catalogue, actor: ActorContext, stepUp: bool, allowedType: PrincipalType, permissions: seq<Grant>)
    ensures IsAboutAuthority(CheckEachRolePermission(cat, actor, stepUp, allowedType, permissions))
  {
    if permissions != [] {
      ContentsAreAboutAuthority(cat, actor, stepUp, allowedType, permissions[1..]);
    }
  }

  lemma {:induction false} ItemsAreAboutAuthority(cat: Catalogue, items: seq<PermissionInput>, seen: set<string>)
    ensures ValidateItems(cat, items, seen).Err? ==> IsAboutAuthority(Some(ValidateItems(cat, items, seen).error))
  {
    if items != [] {
      ItemsAreAboutAuthority(cat, items[1..], seen + {items[0].code});
    }
  }

  lemma RolesAreAboutAuthority(
    cat: Catalogue, db: Tables, who: Principal, code: string, r: Uuid, contents: Option<seq<RolePermission>>)
    ensures IsAboutAuthority(CheckRole(cat, db, who, code, r, contents))
  {
    if r in db.roles {
      var role := db.roles[r];
      ContentsAreAboutAuthority(cat, who.actor, who.stepUp, role.allowedType,
                                AsGrants(if contents.Some? then contents.value else role.permissions));
    }
  }

  lemma AssignmentsAreAboutAuthority(cat: Catalogue, db: Tables, who: Principal, u: Uuid, r: Uuid)
    ensures IsAboutAuthority(CheckAssignment(cat, db, who, u, r))
  {
    if u in db.users && r in db.roles {
      GrantsAreAboutAuthority(cat, who.actor, SubjectOf(db, u), who.stepUp, AsGrants(db.roles[r].permissions));
    }
  }

  /** The replacing contents of a role, once they are validated. */
  function Contents(cat: Catalogue, replacement: Option<seq<PermissionInput>>): Option<seq<RolePermission>> {
    match replacement
    case None => None
    case Some(items) =>
      match ValidateRolePermissions(cat, items)
      case Ok(permissions) => Some(permissions)
      case Err(_) => None
  }

  /** Everything about a role request is in order but its conflict with what the tables hold. */
  lemma RoleConflictsAreExact(cat: Catalogue, db: Tables, who: Principal, request: Request)
    requires request.CreateRole? || request.UpdateRole? || request.DeleteRole?
    ensures Decide(cat, db, who, request) == Err(VersionConflict) <==>
              && request.UpdateRole? && IsWellFormed(cat, db, request)
              && MayEdit(cat, db, who, ROLES_UPDATE, request.roleId, Contents(cat, request.replacement))
              && db.roles[request.roleId].version != request.version
    ensures Decide(cat, db, who, request) == Err(RoleInUse) <==>
              && request.DeleteRole? && MayEdit(cat, db, who, ROLES_DELETE, request.roleId, None)
              && exists u :: Assignment(u, request.roleId) in db.assignments
    ensures Decide(cat, db, who, request) == Err(AlreadyExists) <==>
              && request.CreateRole? && IsWellFormed(cat, db, request) && TouchesRoles(cat, who, ROLES_CREATE)
              && MayAuthor(cat, who, request.allowedType, ValidateRolePermissions(cat, request.items).value)
              && (request.roleId in db.roles || exists k :: k in db.roles && db.roles[k].code == request.roleCode)
    ensures Decide(cat, db, who, request) !in {Err(SubjectArchived), Err(AlreadyAssigned)}
  {
    match request
    case CreateRole(_, _, allowedType, items) =>
      ItemsAreAboutAuthority(cat, items, {});
      ValidatedIsReadable(cat, items);
      if ValidateRolePermissions(cat, items).Ok? {
        var permissions := ValidateRolePermissions(cat, items).value;
        AuthoringIsExact(cat, who, false, allowedType, permissions);
        ContentsAreAboutAuthority(cat, who.actor, who.stepUp, allowedType, AsGrants(permissions));
      }
    case UpdateRole(r, _, replacement) =>
      if replacement.Some? {
        ItemsAreAboutAuthority(cat, replacement.value, {});
        ValidatedIsReadable(cat, replacement.value);
      }
      EditIsExact(cat, db, who, ROLES_UPDATE, r, Contents(cat, replacement));
      RolesAreAboutAuthority(cat, db, who, ROLES_UPDATE, r, Contents(cat, replacement));
    case DeleteRole(r) =>
      EditIsExact(cat, db, who, ROLES_DELETE, r, None);
      RolesAreAboutAuthority(cat, db, who, ROLES_DELETE, r, None);
      assert forall u :: u in Holders(db, r) <==> Assignment(u, r) in db.assignments;
  }

  /** An override could be given but for the state of the person or of the table. */
  ghost predicate MayOverride(cat: Catalogue, db: Tables, who: Principal, o: Override) {
    && IsLive(o, db.clock) && MayGrant(cat, db, who, o.userId, o.code, ScopeOf(o))
    && TouchesPerson(cat, who, PERMISSIONS_DELEGATE, o.userId)
  }

  /** The same for giving a role to a person and taking it away. */
  lemma AssignmentConflictsAreExact(cat: Catalogue, db: Tables, who: Principal, u: Uuid, r: Uuid)
    ensures var (may, refusals) := (MayAssign(cat, db, who, u, r), Decide(cat, db, who, AssignRole(u, r)));
            && (refusals == Err(SubjectArchived) <==> may && db.users[u].isArchived)
            && (refusals == Err(AlreadyAssigned) <==> may && !db.users[u].isArchived && Assignment(u, r) in db.assignments)
            && refusals !in {Err(VersionConflict), Err(RoleInUse), Err(AlreadyExists)}
    ensures MayAssign(cat, db, who, u, r) && Assignment(u, r) !in db.assignments ==>
              Decide(cat, db, who, UnassignRole(u, r)) == Err(NotFound)
    ensures Decide(cat, db, who, UnassignRole(u, r)) !in
              {Err(VersionConflict), Err(RoleInUse), Err(AlreadyExists), Err(SubjectArchived), Err(AlreadyAssigned)}
  {
    AssignmentIsExact(cat, db, who, u, r);
    AssignmentsAreAboutAuthority(cat, db, who, u, r);
  }

  /** The same for overrides. */
  lemma OverrideConflictsAreExact(cat: Catalogue, db: Tables, who: Principal, id: Uuid, o: Override)
    ensures var (may, refusals) := (MayOverride(cat, db, who, o), Decide(cat, db, who, CreateOverride(id, o)));
            && (refusals == Err(SubjectArchived) <==> may && db.users[o.userId].isArchived)
            && (refusals == Err(AlreadyExists) <==>
                  && may && !db.users[o.userId].isArchived
                  && (id in db.overrides || exists k :: k in db.overrides && SameKey(db.overrides[k], o)))
            && refusals !in {Err(VersionConflict), Err(RoleInUse), Err(AlreadyAssigned)}
  {
    if o.userId in db.users {
      GrantIsExact(cat, db, who, o.userId, o.code, ScopeOf(o));
    }
  }

  /** Past the door: a role or an override that is not there, and what nobody may touch. */
  lemma ObjectRefusalsAreExact(cat: Catalogue, db: Tables, who: Principal, request: Request)
    requires IsWellFormed(cat, db, request) && FindsPerson(db, request)
    requires HasPermission(cat, who, request) && HasFactor(cat, who, request)
    ensures request.UpdateRole? || request.DeleteRole? || request.AssignRole? || request.UnassignRole? ==>
              (request.roleId !in db.roles ==> Decide(cat, db, who, request) == Err(NotFound))
    ensures (request.UpdateRole? || request.DeleteRole?) && request.roleId in db.roles &&
            db.roles[request.roleId].isSystem && IsReadable(db.roles[request.roleId].permissions) ==>
              Decide(cat, db, who, request) == Err(SystemRole)
    ensures request.DeleteOverride? ==>
              && (db.owner == Some(request.userId) <==> Decide(cat, db, who, request) == Err(RootProtected))
              && (db.owner != Some(request.userId) &&
                  (request.overrideId !in db.overrides || db.overrides[request.overrideId].userId != request.userId) ==>
                    Decide(cat, db, who, request) == Err(NotFound))
  {
  }

  /** Contents are accepted up to a hundred permissions, each known and at a scope a role can have, none of them twice. */
  lemma ContentsAreAccepted(cat: Catalogue, items: seq<PermissionInput>)
    ensures ValidateRolePermissions(cat, items) == Err(TooManyPermissions) <==> |items| > 100
    ensures ValidateRolePermissions(cat, items).Ok? <==>
              && |items| <= 100 && (forall item | item in items :: IsValidItem(cat, item))
              && forall i, j | 0 <= i < j < |items| :: items[i].code != items[j].code
  {
    ValidateItemsIsExact(cat, items, {});
    ItemsAreNotTooMany(cat, items, {});
  }

  lemma {:induction false} ItemsAreNotTooMany(cat: Catalogue, items: seq<PermissionInput>, seen: set<string>)
    ensures ValidateItems(cat, items, seen) != Err(TooManyPermissions)
  {
    if items != [] {
      ItemsAreNotTooMany(cat, items[1..], seen + {items[0].code});
    }
  }

  /** The first item that is unknown, at RESOURCE scope or there already decides how the contents are refused. */
  lemma {:induction false} FirstItemDecides(cat: Catalogue, items: seq<PermissionInput>, seen: set<string>, i: nat)
    requires i < |items|
    requires forall k | 0 <= k < i :: IsValidItem(cat, items[k]) && items[k].code !in seen
    requires forall j, k | 0 <= j < k < i :: items[j].code != items[k].code
    ensures var again := items[i].code in seen || exists k :: 0 <= k < i && items[k].code == items[i].code;
            && (items[i].code !in cat ==> ValidateItems(cat, items, seen) == Err(UnknownPermission))
            && (items[i].code in cat && !IsValidItem(cat, items[i]) ==> ValidateItems(cat, items, seen) == Err(InvalidScope))
            && (IsValidItem(cat, items[i]) && again ==> ValidateItems(cat, items, seen) == Err(DuplicatePermission))
  {
    if i > 0 {
      assert forall k | 1 <= k < |items| :: items[1..][k - 1] == items[k];
      FirstItemDecides(cat, items[1..], seen + {items[0].code}, i - 1);
    }
  }

  // ---------------------------------------------------------------------------
  // What a performed request brings about
  // ---------------------------------------------------------------------------

  /** Everyone holds by roles other than `r` what they held. */
  ghost predicate SameOtherRoles(db: Tables, after: Tables, r: Uuid) {
    && (forall k | k != r :: (k in after.roles <==> k in db.roles) && (k in db.roles && k in after.roles ==> after.roles[k] == db.roles[k]))
    && (forall u, s, p | s != r :: HasByRole(after, u, s, p) <==> HasByRole(db, u, s, p))
  }

  /** Everyone's overrides other than `id` are there as they were, and no others. */
  ghost predicate SameOtherOverrides(db: Tables, after: Tables, id: Uuid) {
    forall k | k != id ::
      && (k in after.overrides <==> k in db.overrides)
      && (k in db.overrides && k in after.overrides ==> after.overrides[k] == db.overrides[k])
  }

  /** What the roles, the assignments and the overrides are after the request, in terms of what everyone holds. */
  ghost predicate TakesEffect(db: Tables, after: Tables, request: Request) {
    match request
    case CreateRole(r, roleCode, allowedType, items) =>
      && r in after.roles && after.roles[r] == Role(roleCode, allowedType, false, 1, after.roles[r].permissions)
      && (forall i | 0 <= i < |items| :: exists p :: p in after.roles[r].permissions && PermissionInput(p.code, Some(p.scopeType)) == items[i])
      && (forall p | p in after.roles[r].permissions :: PermissionInput(p.code, Some(p.scopeType)) in items)
      && SameOtherRoles(db, after, r) && after.assignments == db.assignments && after.overrides == db.overrides
    case UpdateRole(r, version, replacement) =>
      && r in after.roles && r in db.roles
      && after.roles[r] == db.roles[r].(version := version + 1, permissions := after.roles[r].permissions)
      && (replacement.None? ==> after.roles[r].permissions == db.roles[r].permissions)
      && (replacement.Some? ==>
            forall u, p :: HasByRole(after, u, r, p) <==>
              Assignment(u, r) in db.assignments && PermissionInput(p.code, Some(p.scopeType)) in replacement.value)
      && SameOtherRoles(db, after, r) && after.assignments == db.assignments && after.overrides == db.overrides
    case DeleteRole(r) =>
      && r !in after.roles && (forall u :: SameStored(db, after, u))
      && SameOtherRoles(db, after, r) && after.assignments == db.assignments && after.overrides == db.overrides
    case AssignRole(u, r) =>
      && (forall v, s, p :: HasByRole(after, v, s, p) <==>
            HasByRole(db, v, s, p) || (v == u && s == r && r in db.roles && p in db.roles[r].permissions))
      && (forall a :: a in after.assignments <==> a in db.assignments || a == Assignment(u, r))
      && after.roles == db.roles && after.overrides == db.overrides
    case UnassignRole(u, r) =>
      && (forall v, s, p :: HasByRole(after, v, s, p) <==> HasByRole(db, v, s, p) && !(v == u && s == r))
      && (forall a :: a in after.assignments <==> a in db.assignments && a != Assignment(u, r))
      && after.roles == db.roles && after.overrides == db.overrides
    case CreateOverride(id, o) =>
      && id in after.overrides && after.overrides[id] == o
      && (forall c :: HasByOverride(after.(clock := c), o.userId, id) <==> o.expiresAt.None? || c < o.expiresAt.value)
      && HasByOverride(after, o.userId, id)
      && SameOtherOverrides(db, after, id)
      && (forall u, r, p :: HasByRole(after, u, r, p) <==> HasByRole(db, u, r, p))
      && after.roles == db.roles && after.assignments == db.assignments
    case DeleteOverride(u, id) =>
      && id !in after.overrides && SameOtherOverrides(db, after, id)
      && (forall v, r, p :: HasByRole(after, v, r, p) <==> HasByRole(db, v, r, p))
      && after.roles == db.roles && after.assignments == db.assignments
  }

  /** The request changes what `u` holds, or may do so. */
  ghost predicate IsTouched(db: Tables, request: Request, u: Uuid) {
    match request
    case UpdateRole(r, _, replacement) => replacement.Some? && Assignment(u, r) in db.assignments
    case AssignRole(v, _) => u == v
    case UnassignRole(v, _) => u == v
    case CreateOverride(_, o) => u == o.userId
    case DeleteOverride(v, _) => u == v
    case _ => false
  }

  /** The request gives `u` something dangerous. */
  ghost predicate IsEndangered(cat: Catalogue, db: Tables, request: Request, u: Uuid) {
    match request
    case AssignRole(v, r) => u == v && r in db.roles && exists p :: p in db.roles[r].permissions && IsDangerous(cat, p.code)
    case CreateOverride(_, o) => u == o.userId && o.effect.Allow? && IsDangerous(cat, o.code)
    case _ => false
  }

  /** Of a person, only the security version and the mandate move: one up, and only where there is a reason. */
  ghost predicate PersonAfter(cat: Catalogue, db: Tables, after: Tables, request: Request, u: Uuid)
    requires u in db.users
  {
    && u in after.users
    && after.users[u].principalType == db.users[u].principalType && after.users[u].isArchived == db.users[u].isArchived
    && after.users[u].securityVersion == db.users[u].securityVersion + (if IsTouched(db, request, u) then 1 else 0)
    && (after.users[u].mfaRequired <==> db.users[u].mfaRequired || IsEndangered(cat, db, request, u))
  }

  ghost predicate PeopleAfter(cat: Catalogue, db: Tables, after: Tables, request: Request) {
    && after.owner == db.owner && after.clock == db.clock && after.users.Keys == db.users.Keys
    && forall u | u in db.users :: PersonAfter(cat, db, after, request, u)
  }

  lemma ItemsBecomeContents(cat: Catalogue, items: seq<PermissionInput>)
    requires ValidateRolePermissions(cat, items).Ok?
    ensures var contents := ValidateRolePermissions(cat, items).value;
            && (forall p | p in contents :: PermissionInput(p.code, Some(p.scopeType)) in items)
            && (forall item | item in items :: item.scopeType.Some? && RolePermission(item.code, item.scopeType.value) in contents)
  {
    ValidateItemsIsExact(cat, items, {});
    var contents := ValidateRolePermissions(cat, items).value;
    forall item | item in items ensures item.scopeType.Some? && RolePermission(item.code, item.scopeType.value) in contents {
      var i :| 0 <= i < |items| && items[i] == item;
      assert contents[i] == RolePermission(item.code, item.scopeType.value);
    }
  }

  lemma DeletedRoleIsGone(cat: Catalogue, db: Tables, r: Uuid)
    requires Holders(db, r) == {}
    ensures TakesEffect(db, Perform(cat, db, RoleDeleted(r)), DeleteRole(r))
  {
    assert forall a | a in db.assignments :: a.userId in Holders(db, a.roleId);
  }

  lemma ReplacedRoleIsHeld(cat: Catalogue, db: Tables, r: Uuid, items: seq<PermissionInput>)
    requires r in db.roles && ValidateRolePermissions(cat, items).Ok?
    ensures TakesEffect(db, Perform(cat, db, RoleReplaced(r, ValidateRolePermissions(cat, items).value)),
                        UpdateRole(r, db.roles[r].version, Some(items)))
  {
    ItemsBecomeContents(cat, items);
  }

  lemma AssignedRoleIsHeld(cat: Catalogue, db: Tables, u: Uuid, r: Uuid)
    ensures TakesEffect(db, Perform(cat, db, RoleAssigned(u, r)), AssignRole(u, r))
    ensures TakesEffect(db, Perform(cat, db, RoleUnassigned(u, r)), UnassignRole(u, r))
  {
  }

  lemma CreatedOverrideIsHeld(cat: Catalogue, db: Tables, id: Uuid, o: Override)
    requires id !in db.overrides && IsLive(o, db.clock)
    ensures TakesEffect(db, Perform(cat, db, OverrideCreated(id, o)), CreateOverride(id, o))
  {
  }

  lemma DeletedOverrideIsGone(cat: Catalogue, db: Tables, u: Uuid, id: Uuid)
    requires id in db.overrides && db.overrides[id].userId == u
    ensures TakesEffect(db, Perform(cat, db, OverrideDeleted(u, id)), DeleteOverride(u, id))
  {
  }

  /** The change that a performed request makes. */
  ghost predicate IsChangeOf(cat: Catalogue, db: Tables, request: Request, change: Change) {
    match request
    case CreateRole(r, roleCode, allowedType, items) =>
      && ValidateRolePermissions(cat, items).Ok?
      && change == RoleCreated(r, Role(roleCode, allowedType, false, 1, ValidateRolePermissions(cat, items).value))
    case UpdateRole(r, version, replacement) =>
      && r in db.roles && db.roles[r].version == version
      && (if replacement.None? then change == RoleRenamed(r)
          else ValidateRolePermissions(cat, replacement.value).Ok? &&
               change == RoleReplaced(r, ValidateRolePermissions(cat, replacement.value).value))
    case DeleteRole(r) => change == RoleDeleted(r) && Holders(db, r) == {}
    case AssignRole(u, r) => change == RoleAssigned(u, r)
    case UnassignRole(u, r) => change == RoleUnassigned(u, r)
    case CreateOverride(id, o) => change == OverrideCreated(id, o) && id !in db.overrides && IsLive(o, db.clock)
    case DeleteOverride(u, id) => change == OverrideDeleted(u, id) && id in db.overrides && db.overrides[id].userId == u
  }

  lemma DecidedIsChangeOf(cat: Catalogue, db: Tables, who: Principal, request: Request)
    requires Decide(cat, db, who, request).Ok?
    ensures IsChangeOf(cat, db, request, Decide(cat, db, who, request).value)
  {
  }

  lemma ChangeTakesEffect(cat: Catalogue, db: Tables, request: Request, change: Change)
    requires IsChangeOf(cat, db, request, change)
    ensures TakesEffect(db, Perform(cat, db, change), request)
  {
    match request
    case CreateRole(_, _, _, items) => ItemsBecomeContents(cat, items);
    case UpdateRole(r, _, replacement) =>
      if replacement.Some? { ReplacedRoleIsHeld(cat, db, r, replacement.value); }
    case DeleteRole(r) => DeletedRoleIsGone(cat, db, r);
    case AssignRole(u, r) => AssignedRoleIsHeld(cat, db, u, r);
    case UnassignRole(u, r) => AssignedRoleIsHeld(cat, db, u, r);
    case CreateOverride(id, o) => CreatedOverrideIsHeld(cat, db, id, o);
    case DeleteOverride(u, id) => DeletedOverrideIsGone(cat, db, u, id);
  }

  lemma ChangeReachesPeople(cat: Catalogue, db: Tables, request: Request, change: Change)
    requires IsChangeOf(cat, db, request, change)
    ensures PeopleAfter(cat, db, Perform(cat, db, change), request)
  {
    var after := Perform(cat, db, change);
    forall u | u in db.users ensures PersonAfter(cat, db, after, request, u) {
      if change.RoleReplaced? {
        assert u in Holders(db, change.roleId) <==> Assignment(u, change.roleId) in db.assignments;
      }
    }
  }

  /**
   A permitted request does what it says, to the person or role it names: what anyone holds
   otherwise, every other row and the ownership stay as they are. A refused one does nothing.
   */
  lemma PermittedTakesEffect(cat: Catalogue, db: Tables, who: Principal, request: Request)
    ensures var after := Apply(cat, db, who, request);
            if IsPermitted(cat, db, who, request)
            then TakesEffect(db, after, request) && PeopleAfter(cat, db, after, request)
            else after == db
  {
    DecideIsExact(cat, db, who, request);
    if IsPermitted(cat, db, who, request) {
      DecidedIsChangeOf(cat, db, who, request);
      ChangeTakesEffect(cat, db, request, Decide(cat, db, who, request).value);
      ChangeReachesPeople(cat, db, request, Decide(cat, db, who, request).value);
    }
  }

  // ---------------------------------------------------------------------------
  // Nothing is stored twice
  // ---------------------------------------------------------------------------

  /** No two roles share a code, and nobody has the same override twice. */
  ghost predicate NothingTwice(db: Tables) {
    && (forall r, s | r in db.roles && s in db.roles && db.roles[r].code == db.roles[s].code :: r == s)
    && (forall i, j | i in db.overrides && j in db.overrides && SameOverride(db.overrides[i], db.overrides[j]) :: i == j)
  }

  ghost predicate SameOverride(a: Override, b: Override) {
    a.userId == b.userId && a.code == b.code && a.effect == b.effect && ScopeOf(a) == ScopeOf(b)
  }

  lemma RequestsStoreNothingTwice(cat: Catalogue, db: Tables, who: Principal, request: Request)
    requires NothingTwice(db)
    ensures NothingTwice(Apply(cat, db, who, request))
  {
    PermittedTakesEffect(cat, db, who, request);
    var after := Apply(cat, db, who, request);
    if IsPermitted(cat, db, who, request) && (request.CreateRole? || request.UpdateRole? || request.DeleteRole?) {
      RolesStayDistinct(db, after, request.roleId);
    }
  }

  lemma RolesStayDistinct(db: Tables, after: Tables, r: Uuid)
    requires NothingTwice(db) && SameOtherRoles(db, after, r) && after.overrides == db.overrides
    requires r in after.roles ==>
               forall k | k in db.roles && db.roles[k].code == after.roles[r].code :: k == r
    ensures NothingTwice(after)
  {
  }

  lemma StepStoresNothingTwice(cat: Catalogue, run: seq<Tables>, k: nat)
    requires k + 1 < |run| && IsRun(cat, run, true) && NothingTwice(run[k])
    ensures NothingTwice(run[k + 1])
  {
    assert StepAt(cat, run, k, true);
    if !Elsewhere(run[k], run[k + 1]) {
      var who: Principal, request :| run[k + 1] == Apply(cat, run[k], who, request);
      RequestsStoreNothingTwice(cat, run[k], who, request);
    }
  }

  /** What the tables do not hold twice at the start they do not hold twice at any point of a run. */
  lemma {:induction false} NothingIsStoredTwice(cat: Catalogue, run: seq<Tables>, k: nat)
    requires IsRun(cat, run, true) && NothingTwice(run[0]) && k < |run|
    ensures NothingTwice(run[k])
  {
    if k > 0 {
      NothingIsStoredTwice(cat, run, k - 1);
      StepStoresNothingTwice(cat, run, k - 1);
    }
  }

  // ---------------------------------------------------------------------------
  // Role edits are not lost
  // ---------------------------------------------------------------------------

  lemma ChangeKeepsRoleVersion(cat: Catalogue, db: Tables, who: Principal, change: Change, r: Uuid)
    requires Checked(cat, db, who, change) && r in db.roles && r in Perform(cat, db, change).roles
    ensures Perform(cat, db, change).roles[r].version >= db.roles[r].version
  {
  }

  lemma ApplyKeepsRoleVersion(cat: Catalogue, db: Tables, who: Principal, request: Request, r: Uuid)
    requires r in db.roles && r in Apply(cat, db, who, request).roles
    ensures Apply(cat, db, who, request).roles[r].version >= db.roles[r].version
  {
    DecideIsChecked(cat, db, who, request);
    var decided := Decide(cat, db, who, request);
    if decided.Ok? {
      ChangeKeepsRoleVersion(cat, db, who, decided.value, r);
    }
  }

  lemma StepKeepsRoleVersion(cat: Catalogue, run: seq<Tables>, k: nat, r: Uuid)
    requires k + 1 < |run| && IsRun(cat, run, true) && r in run[k].roles && r in run[k + 1].roles
    ensures run[k + 1].roles[r].version >= run[k].roles[r].version
  {
    assert StepAt(cat, run, k, true);
    if !Elsewhere(run[k], run[k + 1]) {
      var who: Principal, request :| run[k + 1] == Apply(cat, run[k], who, request);
      ApplyKeepsRoleVersion(cat, run[k], who, request, r);
    }
  }

  lemma {:induction false} RoleVersionsRise(cat: Catalogue, run: seq<Tables>, i: nat, j: nat, r: Uuid)
    requires IsRun(cat, run, true) && i <= j < |run|
    requires forall k | i <= k <= j :: r in run[k].roles
    ensures run[j].roles[r].version >= run[i].roles[r].version
    decreases j
  {
    if i < j {
      RoleVersionsRise(cat, run, i, j - 1, r);
      StepKeepsRoleVersion(cat, run, j - 1, r);
    }
  }

  /**
   Of two edits made from the same version of a role, whoever makes them and whatever
   happens between, only the first is performed: the second cannot overwrite it unseen.
   */
  lemma SecondEditIsRefused(
    cat: Catalogue, run: seq<Tables>, i: nat, j: nat, first: Principal, second: Principal, edit: Request, other: Request)
    requires IsRun(cat, run, true) && i < j < |run|
    requires edit.UpdateRole? && other.UpdateRole? && edit.roleId == other.roleId && edit.version == other.version
    requires Decide(cat, run[i], first, edit).Ok? && run[i + 1] == Apply(cat, run[i], first, edit)
    requires forall k | i < k <= j :: edit.roleId in run[k].roles
    ensures Decide(cat, run[j], second, other).Err?
  {
    DecideIsExact(cat, run[i], first, edit);
    DecideIsExact(cat, run[j], second, other);
    RoleVersionsRise(cat, run, i + 1, j, edit.roleId);
  }
}
