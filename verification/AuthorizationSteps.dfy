/**
 The operations that change authority (roles, their contents, assignments, per-user
 overrides), each one transaction over the tables, and what every run of them keeps.
 */
module AuthorizationSteps {
  import opened Bytes
  import opened Authorization

  const PERMISSIONS_DELEGATE := "iam.permissions.delegate"
  const ROLES_CREATE := "iam.roles.create"
  const ROLES_UPDATE := "iam.roles.update"
  const ROLES_DELETE := "iam.roles.delete"
  const ROLES_ASSIGN := "iam.roles.assign"

  const MAX_ARRAY_LEN: nat := 100

  datatype Person = Person(principalType: PrincipalType, isArchived: bool, securityVersion: int, mfaRequired: bool)

  datatype RolePermission = RolePermission(code: string, scopeType: ScopeType)

  datatype Role = Role(
    code: string, allowedType: PrincipalType, isSystem: bool, version: int, permissions: seq<RolePermission>)

  datatype Assignment = Assignment(userId: Uuid, roleId: Uuid)

  datatype Override = Override(
    userId: Uuid,
    code: string,
    effect: Effect,
    scopeType: ScopeType,
    resourceType: Option<ResourceType>,
    resourceId: Option<Uuid>,
    expiresAt: Option<int>)

  datatype Tables = Tables(
    users: map<Uuid, Person>,
    owner: Option<Uuid>,
    roles: map<Uuid, Role>,
    assignments: set<Assignment>,
    overrides: map<Uuid, Override>,
    clock: int)

  /** Who asks: the actor as loaded for the request, and whether its second factor is recent. */
  datatype Principal = Principal(actor: ActorContext, stepUp: bool)

  /** A requested permission of a role; a scope that does not parse is None. */
  datatype PermissionInput = PermissionInput(code: string, scopeType: Option<ScopeType>)

  datatype Request =
    | CreateRole(roleId: Uuid, roleCode: string, allowedType: PrincipalType, items: seq<PermissionInput>)
    | UpdateRole(roleId: Uuid, version: int, replacement: Option<seq<PermissionInput>>)
    | DeleteRole(roleId: Uuid)
    | AssignRole(userId: Uuid, roleId: Uuid)
    | UnassignRole(userId: Uuid, roleId: Uuid)
    | CreateOverride(overrideId: Uuid, override: Override)
    | DeleteOverride(userId: Uuid, overrideId: Uuid)

  // ---------------------------------------------------------------------------
  // What is held
  // ---------------------------------------------------------------------------

  predicate IsLive(override: Override, clock: int) {
    override.expiresAt.None? || override.expiresAt.value > clock
  }

  function RoleRow(p: RolePermission): GrantRow {
    GrantRow(p.code, Some(p.scopeType), Some(Allow), None, None)
  }

  function OverrideRow(o: Override): GrantRow {
    GrantRow(o.code, Some(o.scopeType), Some(o.effect), o.resourceType, o.resourceId)
  }

  /** Role `r`, assigned to `u`, contains `p`. */
  ghost predicate HasByRole(db: Tables, u: Uuid, r: Uuid, p: RolePermission) {
    Assignment(u, r) in db.assignments && r in db.roles && p in db.roles[r].permissions
  }

  /** `o` is an override of `u` that has not expired. */
  ghost predicate HasByOverride(db: Tables, u: Uuid, o: Uuid) {
    o in db.overrides && db.overrides[o].userId == u && IsLive(db.overrides[o], db.clock)
  }

  /** The rows that the grants query returns for `u`. */
  ghost predicate IsGrantRow(db: Tables, u: Uuid, row: GrantRow) {
    || (exists r, p :: HasByRole(db, u, r, p) && row == RoleRow(p))
    || (exists o :: HasByOverride(db, u, o) && row == OverrideRow(db.overrides[o]))
  }

  ghost predicate Holds(db: Tables, u: Uuid, effect: Effect, g: Grant) {
    exists row :: IsGrantRow(db, u, row) && RowGrant(row, effect) == Some(g)
  }

  /** The actor is what the loader reads for a user in this state, rows in any order. */
  ghost predicate Loaded(db: Tables, actor: ActorContext) {
    && actor.userId in db.users
    && actor.principalType == db.users[actor.userId].principalType
    && (actor.isRoot <==> db.owner == Some(actor.userId))
    && exists rows ::
         && (forall row :: row in rows <==> IsGrantRow(db, actor.userId, row))
         && actor.allows == GrantsWith(rows, Allow) && actor.denies == GrantsWith(rows, Deny)
  }

  lemma LoadedHolds(db: Tables, actor: ActorContext, g: Grant)
    requires Loaded(db, actor)
    ensures g in actor.allows <==> Holds(db, actor.userId, Allow, g)
    ensures g in actor.denies <==> Holds(db, actor.userId, Deny, g)
    ensures AllCoherent(actor)
  {
    var rows :| (forall row :: row in rows <==> IsGrantRow(db, actor.userId, row)) &&
                actor.allows == GrantsWith(rows, Allow) && actor.denies == GrantsWith(rows, Deny);
    GrantsWithAreExact(rows, Allow);
    GrantsWithAreExact(rows, Deny);
  }

  // ---------------------------------------------------------------------------
  // The operations
  // ---------------------------------------------------------------------------

  function Require(cat: Catalogue, who: Principal, code: string, target: Target): Option<Refusal> {
    var decision := Evaluate(cat, who.actor, code, target);
    if IsAllowed(decision) then None
    else if decision.DenyUnknownPermission? then Some(UnknownPermission)
    else if who.actor.principalType.Client? then Some(NotFound)
    else Some(PermissionDenied)
  }

  function RequireStepUp(who: Principal): Option<Refusal> {
    if who.stepUp then None else Some(StepUpRequired)
  }

  function RequireStepUpFor(cat: Catalogue, who: Principal, code: string): Option<Refusal> {
    if IsDangerous(cat, code) then RequireStepUp(who) else None
  }

  /** The first refusal, if any. */
  function Then(first: Option<Refusal>, second: Option<Refusal>): Option<Refusal> {
    if first.Some? then first else second
  }

  /** Collection-level permission and second factor, before the role is looked up. */
  function MayTouchRoles(cat: Catalogue, who: Principal, code: string): Option<Refusal> {
    Then(Require(cat, who, code, Collection), RequireStepUp(who))
  }

  /** Permission over the person, and second factor if the permission is dangerous. */
  function MayTouchPerson(cat: Catalogue, who: Principal, code: string, subject: Uuid): Option<Refusal> {
    var target := Object(TargetContext(User, subject, None, false, who.actor.userId == subject));
    Then(Require(cat, who, code, target), RequireStepUpFor(cat, who, code))
  }

  function SubjectOf(db: Tables, u: Uuid): Subject
    requires u in db.users
  {
    Subject(u, db.users[u].principalType, db.owner == Some(u), db.users[u].isArchived)
  }

  function ValidateItems(cat: Catalogue, items: seq<PermissionInput>, seen: set<string>)
    : Result<seq<RolePermission>, Refusal>
  {
    if items == [] then Ok([])
    else if items[0].code !in cat then Err(UnknownPermission)
    else if items[0].scopeType.None? || items[0].scopeType.value.Resource? then Err(InvalidScope)
    else if items[0].code in seen then Err(DuplicatePermission)
    else
      match ValidateItems(cat, items[1..], seen + {items[0].code})
      case Err(e) => Err(e)
      case Ok(rest) => Ok([RolePermission(items[0].code, items[0].scopeType.value)] + rest)
  }

  function ValidateRolePermissions(cat: Catalogue, items: seq<PermissionInput>): Result<seq<RolePermission>, Refusal> {
    if |items| > MAX_ARRAY_LEN then Err(TooManyPermissions) else ValidateItems(cat, items, {})
  }

  /** One scope for each permission, as the primary key of a role's contents demands. */
  ghost predicate OneScopeEach(permissions: seq<RolePermission>) {
    forall i, j | 0 <= i < j < |permissions| :: permissions[i].code != permissions[j].code
  }

  ghost predicate IsValidItem(cat: Catalogue, item: PermissionInput) {
    item.code in cat && item.scopeType.Some? && !item.scopeType.value.Resource?
  }

  /** The items are accepted exactly if each is valid and no permission comes twice; they are then taken as they are. */
  lemma {:induction false} ValidateItemsIsExact(cat: Catalogue, items: seq<PermissionInput>, seen: set<string>)
    ensures var r := ValidateItems(cat, items, seen);
            && (r.Ok? <==> (forall i | 0 <= i < |items| :: IsValidItem(cat, items[i]) && items[i].code !in seen) &&
                           (forall i, j | 0 <= i < j < |items| :: items[i].code != items[j].code))
            && (r.Ok? ==> |r.value| == |items| && OneScopeEach(r.value) &&
                          forall i | 0 <= i < |items| :: PermissionInput(r.value[i].code, Some(r.value[i].scopeType)) == items[i])
  {
    if items != [] {
      ValidateItemsIsExact(cat, items[1..], seen + {items[0].code});
      assert forall i | 1 <= i < |items| :: items[1..][i - 1] == items[i];
    }
  }

  method ValidateInOrder(cat: Catalogue, items: seq<PermissionInput>) returns (r: Result<seq<RolePermission>, Refusal>)
    ensures r == ValidateRolePermissions(cat, items)
  {
    if |items| > MAX_ARRAY_LEN {
      return Err(TooManyPermissions);
    }
    var seen: set<string>, out: seq<RolePermission> := {}, [];
    assert items[0..] == items;
    PrependedNothing(ValidateItems(cat, items, seen));
    for i := 0 to |items|
      invariant ValidateItems(cat, items, {}) == Prepended(out, ValidateItems(cat, items[i..], seen))
    {
      var item := items[i];
      if item.code !in cat {
        return Err(UnknownPermission);
      }
      if item.scopeType.None? || item.scopeType.value.Resource? {
        return Err(InvalidScope);
      }
      if item.code in seen {
        return Err(DuplicatePermission);
      }
      seen := seen + {item.code};
      assert items[i..][1..] == items[i + 1..];
      PrependedTwice(out, RolePermission(item.code, item.scopeType.value), ValidateItems(cat, items[i + 1..], seen));
      out := out + [RolePermission(item.code, item.scopeType.value)];
    }
    r := Ok(out);
    assert out + [] == out;
  }

  ghost function Prepended(out: seq<RolePermission>, rest: Result<seq<RolePermission>, Refusal>)
    : Result<seq<RolePermission>, Refusal>
  {
    match rest
    case Ok(permissions) => Ok(out + permissions)
    case Err(refusal) => Err(refusal)
  }

  lemma PrependedNothing(rest: Result<seq<RolePermission>, Refusal>)
    ensures Prepended([], rest) == rest
  {
    if rest.Ok? {
      assert [] + rest.value == rest.value;
    }
  }

  lemma PrependedTwice(out: seq<RolePermission>, p: RolePermission, rest: Result<seq<RolePermission>, Refusal>)
    ensures Prepended(out, Prepended([p], rest)) == Prepended(out + [p], rest)
  {
    if rest.Ok? {
      assert out + ([p] + rest.value) == out + [p] + rest.value;
    }
  }

  function AsGrants(permissions: seq<RolePermission>): seq<Grant> {
    seq(|permissions|, i requires 0 <= i < |permissions| => Grant(permissions[i].code, Simple(permissions[i].scopeType)))
  }

  /** The contents of a stored role; RESOURCE cannot be read back without an object. */
  function StoredGrants(role: Role): Result<seq<Grant>, Refusal> {
    if exists p :: p in role.permissions && p.scopeType.Resource? then Err(CorruptRow)
    else Ok(AsGrants(role.permissions))
  }

  function Bumped(users: map<Uuid, Person>, who: set<Uuid>): map<Uuid, Person> {
    map u | u in users ::
      if u in who then users[u].(securityVersion := users[u].securityVersion + 1) else users[u]
  }

  function Mandated(users: map<Uuid, Person>, u: Uuid, dangerous: bool): map<Uuid, Person> {
    if dangerous && u in users then users[u := users[u].(mfaRequired := true)] else users
  }

  function Holders(db: Tables, roleId: Uuid): set<Uuid> {
    set a | a in db.assignments && a.roleId == roleId :: a.userId
  }

  predicate AnyDangerous(cat: Catalogue, permissions: seq<RolePermission>) {
    exists p :: p in permissions && IsDangerous(cat, p.code)
  }

  function ScopeOf(o: Override): Scope {
    Scope(o.scopeType, o.resourceType, o.resourceId)
  }

  /** What the unique index on overrides distinguishes; it does not look at the resource type. */
  predicate SameKey(a: Override, b: Override) {
    && a.userId == b.userId && a.code == b.code && a.effect == b.effect && a.scopeType == b.scopeType
    && (if a.resourceId.None? then 0 else a.resourceId.value) == (if b.resourceId.None? then 0 else b.resourceId.value)
  }

  /** What a request that is not refused does. */
  datatype Change =
    | RoleCreated(roleId: Uuid, role: Role)
    | RoleRenamed(roleId: Uuid)
    | RoleReplaced(roleId: Uuid, permissions: seq<RolePermission>)
    | RoleDeleted(roleId: Uuid)
    | RoleAssigned(userId: Uuid, roleId: Uuid)
    | RoleUnassigned(userId: Uuid, roleId: Uuid)
    | OverrideCreated(overrideId: Uuid, override: Override)
    | OverrideDeleted(userId: Uuid, overrideId: Uuid)

  function DecideCreateRole(
    cat: Catalogue, db: Tables, who: Principal, roleId: Uuid, roleCode: string, allowedType: PrincipalType,
    permissions: seq<RolePermission>): Result<Change, Refusal>
  {
    var refused := Then(MayTouchRoles(cat, who, ROLES_CREATE),
                        CheckRoleAuthoring(cat, who.actor, who.stepUp, false, allowedType, AsGrants(permissions)));
    if refused.Some? then Err(refused.value)
    else if roleId in db.roles || exists r :: r in db.roles && db.roles[r].code == roleCode then Err(AlreadyExists)
    else Ok(RoleCreated(roleId, Role(roleCode, allowedType, false, 1, permissions)))
  }

  /** Authority over an existing role with its own or the replacing contents. */
  function CheckRole(
    cat: Catalogue, db: Tables, who: Principal, code: string, roleId: Uuid, replacement: Option<seq<RolePermission>>)
    : Option<Refusal>
  {
    var touch := MayTouchRoles(cat, who, code);
    if touch.Some? then touch
    else if roleId !in db.roles then Some(NotFound)
    else
      var role := db.roles[roleId];
      match StoredGrants(role)
      case Err(refusal) => Some(refusal)
      case Ok(stored) =>
        CheckRoleAuthoring(cat, who.actor, who.stepUp, role.isSystem, role.allowedType,
                           if replacement.Some? then AsGrants(replacement.value) else stored)
  }

  function DecideUpdateRole(
    cat: Catalogue, db: Tables, who: Principal, roleId: Uuid, version: int, replacement: Option<seq<RolePermission>>)
    : Result<Change, Refusal>
  {
    var refused := CheckRole(cat, db, who, ROLES_UPDATE, roleId, replacement);
    if refused.Some? then Err(refused.value)
    else if version != db.roles[roleId].version then Err(VersionConflict)
    else if replacement.None? then Ok(RoleRenamed(roleId))
    else Ok(RoleReplaced(roleId, replacement.value))
  }

  function DecideDeleteRole(cat: Catalogue, db: Tables, who: Principal, roleId: Uuid): Result<Change, Refusal> {
    var refused := CheckRole(cat, db, who, ROLES_DELETE, roleId, None);
    if refused.Some? then Err(refused.value)
    else if Holders(db, roleId) != {} then Err(RoleInUse)
    else Ok(RoleDeleted(roleId))
  }

  /** Authority to give a role to a person or to take it away. */
  function CheckAssignment(cat: Catalogue, db: Tables, who: Principal, userId: Uuid, roleId: Uuid): Option<Refusal> {
    if userId !in db.users then Some(NotFound)
    else
      var touch := MayTouchPerson(cat, who, ROLES_ASSIGN, userId);
      if touch.Some? then touch
      else if roleId !in db.roles then Some(NotFound)
      else
        match StoredGrants(db.roles[roleId])
        case Err(refusal) => Some(refusal)
        case Ok(stored) =>
          CheckRoleAssignment(cat, who.actor, SubjectOf(db, userId), who.stepUp, db.roles[roleId].allowedType, stored)
  }

  function DecideAssignRole(cat: Catalogue, db: Tables, who: Principal, userId: Uuid, roleId: Uuid): Result<Change, Refusal> {
    var refused := CheckAssignment(cat, db, who, userId, roleId);
    if refused.Some? then Err(refused.value)
    else if db.users[userId].isArchived then Err(SubjectArchived)
    else if Assignment(userId, roleId) in db.assignments then Err(AlreadyAssigned)
    else Ok(RoleAssigned(userId, roleId))
  }

  function DecideUnassignRole(cat: Catalogue, db: Tables, who: Principal, userId: Uuid, roleId: Uuid): Result<Change, Refusal> {
    var refused := CheckAssignment(cat, db, who, userId, roleId);
    if refused.Some? then Err(refused.value)
    else if Assignment(userId, roleId) !in db.assignments then Err(NotFound)
    else Ok(RoleUnassigned(userId, roleId))
  }

  /** The request's own shape, before the subject is looked up. */
  function CheckOverrideInput(cat: Catalogue, clock: int, o: Override): Option<Refusal> {
    if o.code !in cat then Some(UnknownPermission)
    else if !IsCoherent(ScopeOf(o)) then Some(InvalidScope)
    else if !IsLive(o, clock) then Some(NotInFuture)
    else None
  }

  function DecideCreateOverride(cat: Catalogue, db: Tables, who: Principal, overrideId: Uuid, o: Override): Result<Change, Refusal> {
    var malformed := CheckOverrideInput(cat, db.clock, o);
    if malformed.Some? then Err(malformed.value)
    else if o.userId !in db.users then Err(NotFound)
    else
      var refused := Then(MayTouchPerson(cat, who, PERMISSIONS_DELEGATE, o.userId),
                          CheckPermissionGrant(cat, who.actor, SubjectOf(db, o.userId), who.stepUp, o.code, ScopeOf(o)));
      if refused.Some? then Err(refused.value)
      else if db.users[o.userId].isArchived then Err(SubjectArchived)
      else if overrideId in db.overrides || exists k :: k in db.overrides && SameKey(db.overrides[k], o) then Err(AlreadyExists)
      else Ok(OverrideCreated(overrideId, o))
  }

  function DecideDeleteOverride(cat: Catalogue, db: Tables, who: Principal, userId: Uuid, overrideId: Uuid): Result<Change, Refusal> {
    if userId !in db.users then Err(NotFound)
    else
      var touch := MayTouchPerson(cat, who, PERMISSIONS_DELEGATE, userId);
      if touch.Some? then Err(touch.value)
      else if db.owner == Some(userId) then Err(RootProtected)
      else if overrideId !in db.overrides || db.overrides[overrideId].userId != userId then Err(NotFound)
      else
        var o := db.overrides[overrideId];
        match ScopeFromRow(o.scopeType, o.resourceType, o.resourceId)
        case Err(refusal) => Err(refusal)
        case Ok(scope) =>
          var refused := CheckPermissionGrant(cat, who.actor, SubjectOf(db, userId), who.stepUp, o.code, scope);
          if refused.Some? then Err(refused.value) else Ok(OverrideDeleted(userId, overrideId))
  }

  function Decide(cat: Catalogue, db: Tables, who: Principal, request: Request): Result<Change, Refusal> {
    match request
    case CreateRole(roleId, roleCode, allowedType, items) =>
      (match ValidateRolePermissions(cat, items)
       case Err(refusal) => Err(refusal)
       case Ok(permissions) => DecideCreateRole(cat, db, who, roleId, roleCode, allowedType, permissions))
    case UpdateRole(roleId, version, replacement) =>
      if replacement.None? then DecideUpdateRole(cat, db, who, roleId, version, None)
      else
        (match ValidateRolePermissions(cat, replacement.value)
         case Err(refusal) => Err(refusal)
         case Ok(permissions) => DecideUpdateRole(cat, db, who, roleId, version, Some(permissions)))
    case DeleteRole(roleId) => DecideDeleteRole(cat, db, who, roleId)
    case AssignRole(userId, roleId) => DecideAssignRole(cat, db, who, userId, roleId)
    case UnassignRole(userId, roleId) => DecideUnassignRole(cat, db, who, userId, roleId)
    case CreateOverride(overrideId, o) => DecideCreateOverride(cat, db, who, overrideId, o)
    case DeleteOverride(userId, overrideId) => DecideDeleteOverride(cat, db, who, userId, overrideId)
  }

  /** The updates to the tables, committed together. */
  function Perform(cat: Catalogue, db: Tables, change: Change): Tables {
    match change
    case RoleCreated(roleId, role) => db.(roles := db.roles[roleId := role])
    case RoleRenamed(roleId) =>
      if roleId !in db.roles then db
      else db.(roles := db.roles[roleId := db.roles[roleId].(version := db.roles[roleId].version + 1)])
    case RoleReplaced(roleId, permissions) =>
      if roleId !in db.roles then db
      else
        var role := db.roles[roleId];
        db.(roles := db.roles[roleId := role.(version := role.version + 1, permissions := permissions)],
            users := Bumped(db.users, Holders(db, roleId)))
    case RoleDeleted(roleId) => db.(roles := db.roles - {roleId})
    case RoleAssigned(userId, roleId) =>
      var dangerous := roleId in db.roles && AnyDangerous(cat, db.roles[roleId].permissions);
      db.(assignments := db.assignments + {Assignment(userId, roleId)},
          users := Mandated(Bumped(db.users, {userId}), userId, dangerous))
    case RoleUnassigned(userId, roleId) =>
      db.(assignments := db.assignments - {Assignment(userId, roleId)}, users := Bumped(db.users, {userId}))
    case OverrideCreated(overrideId, o) =>
      db.(overrides := db.overrides[overrideId := o],
          users := Mandated(Bumped(db.users, {o.userId}), o.userId, o.effect.Allow? && IsDangerous(cat, o.code)))
    case OverrideDeleted(userId, overrideId) =>
      db.(overrides := db.overrides - {overrideId}, users := Bumped(db.users, {userId}))
  }

  /** A request as one transaction: refused without effect, or performed. */
  function Apply(cat: Catalogue, db: Tables, who: Principal, request: Request): Tables {
    match Decide(cat, db, who, request)
    case Err(_) => db
    case Ok(change) => Perform(cat, db, change)
  }

  /** The tables, updated statement by statement inside one transaction. */
  class Store {
    var users: map<Uuid, Person>
    var owner: Option<Uuid>
    var roles: map<Uuid, Role>
    var assignments: set<Assignment>
    var overrides: map<Uuid, Override>
    var clock: int

    function Contents(): Tables
      reads this
    {
      Tables(users, owner, roles, assignments, overrides, clock)
    }

    constructor (db: Tables)
      ensures Contents() == db
    {
      users, owner, roles := db.users, db.owner, db.roles;
      assignments, overrides, clock := db.assignments, db.overrides, db.clock;
    }

    method BumpSecurityVersion(u: Uuid)
      modifies this`users
      ensures users == Bumped(old(users), {u})
    {
      if u in users {
        users := users[u := users[u].(securityVersion := users[u].securityVersion + 1)];
      }
    }

    method BumpEachHolder(roleId: Uuid)
      modifies this`users
      ensures users == Bumped(old(users), Holders(old(Contents()), roleId))
    {
      var holders := set a | a in assignments && a.roleId == roleId :: a.userId;
      ghost var done: set<Uuid> := {};
      while holders != {}
        invariant done !! holders && done + holders == Holders(old(Contents()), roleId)
        invariant users == Bumped(old(users), done)
        decreases holders
      {
        var u :| u in holders;
        BumpSecurityVersion(u);
        holders, done := holders - {u}, done + {u};
      }
    }

    method MandateMfa(u: Uuid, dangerous: bool)
      modifies this`users
      ensures users == Mandated(old(users), u, dangerous)
    {
      if dangerous && u in users && !users[u].mfaRequired {
        users := users[u := users[u].(mfaRequired := true)];
      }
    }

    method InsertRolePermissions(roleId: Uuid, permissions: seq<RolePermission>)
      requires roleId in roles && roles[roleId].permissions == []
      modifies this`roles
      ensures roles == old(roles)[roleId := old(roles[roleId]).(permissions := permissions)]
    {
      for i := 0 to |permissions|
        invariant roles == old(roles)[roleId := old(roles[roleId]).(permissions := permissions[..i])]
      {
        roles := roles[roleId := roles[roleId].(permissions := roles[roleId].permissions + [permissions[i]])];
        assert permissions[..i + 1] == permissions[..i] + [permissions[i]];
      }
      assert permissions[..|permissions|] == permissions;
    }

    method ReplaceRole(roleId: Uuid, permissions: seq<RolePermission>)
      requires roleId in roles
      modifies this`roles, this`users
      ensures forall cat :: Contents() == Perform(cat, old(Contents()), RoleReplaced(roleId, permissions))
    {
      roles := roles[roleId := roles[roleId].(version := roles[roleId].version + 1)];
      roles := roles[roleId := roles[roleId].(permissions := [])];
      InsertRolePermissions(roleId, permissions);
      BumpEachHolder(roleId);
    }

    method Commit(cat: Catalogue, change: Change)
      modifies this
      ensures Contents() == Perform(cat, old(Contents()), change)
    {
      match change
      case RoleCreated(roleId, role) =>
        roles := roles[roleId := role.(permissions := [])];
        InsertRolePermissions(roleId, role.permissions);
      case RoleRenamed(roleId) =>
        if roleId in roles {
          roles := roles[roleId := roles[roleId].(version := roles[roleId].version + 1)];
        }
      case RoleReplaced(roleId, permissions) =>
        if roleId in roles {
          ReplaceRole(roleId, permissions);
        }
      case RoleDeleted(roleId) =>
        roles := roles - {roleId};
      case RoleAssigned(userId, roleId) =>
        assignments := assignments + {Assignment(userId, roleId)};
        BumpSecurityVersion(userId);
        MandateMfa(userId, roleId in roles && AnyDangerous(cat, roles[roleId].permissions));
      case RoleUnassigned(userId, roleId) =>
        assignments := assignments - {Assignment(userId, roleId)};
        BumpSecurityVersion(userId);
      case OverrideCreated(overrideId, o) =>
        overrides := overrides[overrideId := o];
        BumpSecurityVersion(o.userId);
        MandateMfa(o.userId, o.effect.Allow? && IsDangerous(cat, o.code));
      case OverrideDeleted(userId, overrideId) =>
        overrides := overrides - {overrideId};
        BumpSecurityVersion(userId);
    }

    method Handle(cat: Catalogue, who: Principal, request: Request) returns (refused: Option<Refusal>)
      modifies this
      ensures Contents() == Apply(cat, old(Contents()), who, request)
      ensures Decide(cat, old(Contents()), who, request).Ok? ==> refused.None?
      ensures Decide(cat, old(Contents()), who, request).Err? ==> refused == Some(Decide(cat, old(Contents()), who, request).error)
      ensures refused.Some? ==> Contents() == old(Contents())
    {
      var decided := Decide(cat, Contents(), who, request);
      if decided.Err? {
        return Some(decided.error);
      }
      Commit(cat, decided.value);
      refused := None;
    }
  }

  // ---------------------------------------------------------------------------
  // What a request that is not refused was checked for
  // ---------------------------------------------------------------------------

  /** The owner may hand out anything; anyone else what it effectively holds. */
  ghost predicate Justified(cat: Catalogue, who: Principal, code: string, scope: Scope) {
    who.actor.isRoot || MayHandOut(cat, who.actor, who.stepUp, code, scope)
  }

  ghost predicate FitsRole(cat: Catalogue, allowedType: PrincipalType, p: RolePermission) {
    EnvelopePermits(cat, p.code, allowedType) && !p.scopeType.Resource?
  }

  /** All of a role's contents fit its type and could have been granted by `who`. */
  ghost predicate Authored(cat: Catalogue, who: Principal, allowedType: PrincipalType, permissions: seq<RolePermission>) {
    && OneScopeEach(permissions)
    && forall p | p in permissions :: FitsRole(cat, allowedType, p) && Justified(cat, who, p.code, Simple(p.scopeType))
  }

  /** `u` is a person other than the actor and the owner. */
  ghost predicate IsOther(db: Tables, who: Principal, u: Uuid) {
    u in db.users && db.owner != Some(u) && u != who.actor.userId
  }

  ghost predicate Checked(cat: Catalogue, db: Tables, who: Principal, change: Change) {
    match change
    case RoleCreated(roleId, role) =>
      roleId !in db.roles && !role.isSystem && Authored(cat, who, role.allowedType, role.permissions)
    case RoleRenamed(roleId) =>
      roleId in db.roles && !db.roles[roleId].isSystem
    case RoleReplaced(roleId, permissions) =>
      roleId in db.roles && !db.roles[roleId].isSystem && Authored(cat, who, db.roles[roleId].allowedType, permissions)
    case RoleDeleted(roleId) =>
      roleId in db.roles && !db.roles[roleId].isSystem && Holders(db, roleId) == {}
    case RoleAssigned(userId, roleId) =>
      && IsOther(db, who, userId) && roleId in db.roles
      && db.roles[roleId].allowedType == db.users[userId].principalType
      && forall p | p in db.roles[roleId].permissions :: Justified(cat, who, p.code, Simple(p.scopeType))
    case RoleUnassigned(userId, roleId) => IsOther(db, who, userId)
    case OverrideCreated(overrideId, o) =>
      && IsOther(db, who, o.userId) && overrideId !in db.overrides && IsCoherent(ScopeOf(o))
      && EnvelopePermits(cat, o.code, db.users[o.userId].principalType) && Justified(cat, who, o.code, ScopeOf(o))
    case OverrideDeleted(userId, overrideId) =>
      && IsOther(db, who, userId) && overrideId in db.overrides && db.overrides[overrideId].userId == userId
      && Justified(cat, who, db.overrides[overrideId].code, ScopeOf(db.overrides[overrideId]))
  }

  lemma AsGrantsHas(permissions: seq<RolePermission>, p: RolePermission)
    requires p in permissions
    ensures Grant(p.code, Simple(p.scopeType)) in AsGrants(permissions)
  {
    var i :| 0 <= i < |permissions| && permissions[i] == p;
    assert AsGrants(permissions)[i] == Grant(p.code, Simple(p.scopeType));
  }

  lemma AuthoringIsChecked(
    cat: Catalogue, who: Principal, isSystem: bool, allowedType: PrincipalType, permissions: seq<RolePermission>)
    requires CheckRoleAuthoring(cat, who.actor, who.stepUp, isSystem, allowedType, AsGrants(permissions)).None?
    ensures !isSystem && (OneScopeEach(permissions) ==> Authored(cat, who, allowedType, permissions))
  {
    EachRolePermissionIsChecked(cat, who.actor, who.stepUp, allowedType, AsGrants(permissions));
    forall p | p in permissions
      ensures FitsRole(cat, allowedType, p) && Justified(cat, who, p.code, Simple(p.scopeType))
    {
      AsGrantsHas(permissions, p);
    }
  }

  lemma RoleIsChecked(
    cat: Catalogue, db: Tables, who: Principal, code: string, roleId: Uuid, replacement: Option<seq<RolePermission>>)
    requires CheckRole(cat, db, who, code, roleId, replacement).None?
    ensures roleId in db.roles && !db.roles[roleId].isSystem
    ensures replacement.Some? && OneScopeEach(replacement.value) ==>
              Authored(cat, who, db.roles[roleId].allowedType, replacement.value)
  {
    var role := db.roles[roleId];
    AuthoringIsChecked(cat, who, role.isSystem, role.allowedType,
                       if replacement.Some? then replacement.value else role.permissions);
  }

  lemma AssignmentIsChecked(cat: Catalogue, db: Tables, who: Principal, userId: Uuid, roleId: Uuid)
    requires CheckAssignment(cat, db, who, userId, roleId).None?
    ensures IsOther(db, who, userId) && roleId in db.roles
    ensures db.roles[roleId].allowedType == db.users[userId].principalType
    ensures forall p | p in db.roles[roleId].permissions :: Justified(cat, who, p.code, Simple(p.scopeType))
  {
    var permissions := db.roles[roleId].permissions;
    EachGrantIsChecked(cat, who.actor, SubjectOf(db, userId), who.stepUp, AsGrants(permissions));
    forall p | p in permissions ensures Justified(cat, who, p.code, Simple(p.scopeType)) {
      AsGrantsHas(permissions, p);
    }
  }

  lemma GrantIsChecked(cat: Catalogue, db: Tables, who: Principal, userId: Uuid, code: string, scope: Scope)
    requires userId in db.users
    requires CheckPermissionGrant(cat, who.actor, SubjectOf(db, userId), who.stepUp, code, scope).None?
    ensures IsOther(db, who, userId) && IsCoherent(scope)
    ensures EnvelopePermits(cat, code, db.users[userId].principalType) && Justified(cat, who, code, scope)
  {
  }

  /** No change is decided on without every check it needs, whatever actor asks. */
  lemma DecideIsChecked(cat: Catalogue, db: Tables, who: Principal, request: Request)
    ensures var decided := Decide(cat, db, who, request); decided.Ok? ==> Checked(cat, db, who, decided.value)
  {
    var decided := Decide(cat, db, who, request);
    if decided.Ok? {
      match request
      case CreateRole(roleId, roleCode, allowedType, items) =>
        ValidateItemsIsExact(cat, items, {});
        AuthoringIsChecked(cat, who, false, allowedType, ValidateRolePermissions(cat, items).value);
      case UpdateRole(roleId, version, replacement) =>
        var permissions := if replacement.Some? then Some(ValidateRolePermissions(cat, replacement.value).value) else None;
        if replacement.Some? { ValidateItemsIsExact(cat, replacement.value, {}); }
        RoleIsChecked(cat, db, who, ROLES_UPDATE, roleId, permissions);
      case DeleteRole(roleId) =>
        RoleIsChecked(cat, db, who, ROLES_DELETE, roleId, None);
      case AssignRole(userId, roleId) =>
        AssignmentIsChecked(cat, db, who, userId, roleId);
      case UnassignRole(userId, roleId) =>
        AssignmentIsChecked(cat, db, who, userId, roleId);
      case CreateOverride(overrideId, o) =>
        GrantIsChecked(cat, db, who, o.userId, o.code, ScopeOf(o));
      case DeleteOverride(userId, overrideId) =>
        var o := db.overrides[overrideId];
        GrantIsChecked(cat, db, who, userId, o.code, ScopeOf(o));
    }
  }

  // ---------------------------------------------------------------------------
  // No escalation
  // ---------------------------------------------------------------------------

  /** Everything newly held, by anyone and by any route, is justified, and is not the actor's own override or assignment. */
  lemma GainsAreJustified(cat: Catalogue, db: Tables, who: Principal, change: Change, u: Uuid)
    requires Checked(cat, db, who, change)
    ensures var after := Perform(cat, db, change);
            && (forall r, p | HasByRole(after, u, r, p) && !HasByRole(db, u, r, p) ::
                  Justified(cat, who, p.code, Simple(p.scopeType)))
            && (forall o | HasByOverride(after, u, o) ::
                  (HasByOverride(db, u, o) && after.overrides[o] == db.overrides[o]) ||
                  (IsCoherent(ScopeOf(after.overrides[o])) &&
                   Justified(cat, who, after.overrides[o].code, ScopeOf(after.overrides[o]))))
  {
  }

  lemma NewRowIsJustified(cat: Catalogue, db: Tables, who: Principal, change: Change, u: Uuid, row: GrantRow, g: Grant)
    requires Checked(cat, db, who, change)
    requires IsGrantRow(Perform(cat, db, change), u, row) && RowGrant(row, Allow) == Some(g)
    ensures IsGrantRow(db, u, row) || Justified(cat, who, g.code, g.scope)
  {
    var after := Perform(cat, db, change);
    GainsAreJustified(cat, db, who, change, u);
    if r, p :| HasByRole(after, u, r, p) && row == RoleRow(p) {
      if HasByRole(db, u, r, p) {
        assert IsGrantRow(db, u, row);
      }
    } else {
      var o :| HasByOverride(after, u, o) && row == OverrideRow(after.overrides[o]);
      if HasByOverride(db, u, o) && after.overrides[o] == db.overrides[o] {
        assert IsGrantRow(db, u, row);
      }
    }
  }

  /** Whatever anyone newly holds after a step, its actor effectively held something it derives from. */
  lemma StepGrantsOnlyDerivable(cat: Catalogue, db: Tables, who: Principal, request: Request, u: Uuid, g: Grant)
    requires Holds(Apply(cat, db, who, request), u, Allow, g) && !Holds(db, u, Allow, g)
    ensures Justified(cat, who, g.code, g.scope)
  {
    DecideIsChecked(cat, db, who, request);
    var row :| IsGrantRow(Apply(cat, db, who, request), u, row) && RowGrant(row, Allow) == Some(g);
    NewRowIsJustified(cat, db, who, Decide(cat, db, who, request).value, u, row, g);
  }

  /** An allow held by someone in `base` from which `g` derives. */
  ghost predicate DerivesFrom(base: Tables, g: Grant) {
    exists u, s :: Holds(base, u, Allow, Grant(g.code, s)) && Derivable(s, g.scope)
  }

  ghost predicate Bounded(base: Tables, db: Tables) {
    forall u, g | Holds(db, u, Allow, g) :: DerivesFrom(base, g)
  }

  /** Other parts of the system: time passes, accounts come and change, principal types stay, versions only rise. */
  ghost predicate Elsewhere(before: Tables, after: Tables) {
    && after == before.(users := after.users, clock := after.clock)
    && after.clock >= before.clock
    && before.users.Keys <= after.users.Keys
    && forall u | u in before.users ::
         && after.users[u].principalType == before.users[u].principalType
         && after.users[u].securityVersion >= before.users[u].securityVersion
  }

  /** The actor was read at some earlier point of the run, and need not be up to date. */
  ghost predicate LoadedBefore(run: seq<Tables>, i: nat, actor: ActorContext)
    requires i < |run|
  {
    exists j :: 0 <= j <= i && Loaded(run[j], actor)
  }

  ghost predicate StepAt(cat: Catalogue, run: seq<Tables>, i: nat, ownerActs: bool)
    requires i + 1 < |run|
  {
    || Elsewhere(run[i], run[i + 1])
    || (exists who: Principal, request ::
          && LoadedBefore(run, i, who.actor) && (ownerActs || !who.actor.isRoot)
          && run[i + 1] == Apply(cat, run[i], who, request))
  }

  ghost predicate IsRun(cat: Catalogue, run: seq<Tables>, ownerActs: bool) {
    |run| > 0 && forall i: nat | i + 1 < |run| :: StepAt(cat, run, i, ownerActs)
  }

  lemma RowsElsewhere(before: Tables, after: Tables, u: Uuid, row: GrantRow)
    requires Elsewhere(before, after) && IsGrantRow(after, u, row)
    ensures IsGrantRow(before, u, row)
  {
    if r, p :| HasByRole(after, u, r, p) && row == RoleRow(p) {
      assert HasByRole(before, u, r, p);
    } else {
      var o :| HasByOverride(after, u, o) && row == OverrideRow(after.overrides[o]);
      assert HasByOverride(before, u, o);
    }
  }

  lemma BoundedElsewhere(base: Tables, before: Tables, after: Tables)
    requires Elsewhere(before, after) && Bounded(base, before)
    ensures Bounded(base, after)
  {
    forall u, g | Holds(after, u, Allow, g) ensures DerivesFrom(base, g) {
      var row :| IsGrantRow(after, u, row) && RowGrant(row, Allow) == Some(g);
      RowsElsewhere(before, after, u, row);
      assert Holds(before, u, Allow, g);
    }
  }

  lemma JustifiedDerives(cat: Catalogue, base: Tables, loaded: Tables, who: Principal, code: string, scope: Scope)
    requires Bounded(base, loaded) && Loaded(loaded, who.actor) && !who.actor.isRoot
    requires Justified(cat, who, code, scope)
    ensures DerivesFrom(base, Grant(code, scope))
  {
    var h :| h in EffectiveScopes(cat, who.actor, code) && Derivable(h, scope);
    assert Grant(code, h) in who.actor.allows;
    LoadedHolds(loaded, who.actor, Grant(code, h));
    var v, s :| Holds(base, v, Allow, Grant(code, s)) && Derivable(s, h);
    DerivableIsPartialOrder(s, h, scope);
  }

  lemma BoundedStep(cat: Catalogue, base: Tables, loaded: Tables, db: Tables, who: Principal, request: Request)
    requires Bounded(base, loaded) && Loaded(loaded, who.actor) && !who.actor.isRoot && Bounded(base, db)
    ensures Bounded(base, Apply(cat, db, who, request))
  {
    forall u, g | Holds(Apply(cat, db, who, request), u, Allow, g) ensures DerivesFrom(base, g) {
      if !Holds(db, u, Allow, g) {
        StepGrantsOnlyDerivable(cat, db, who, request, u, g);
        JustifiedDerives(cat, base, loaded, who, g.code, g.scope);
      }
    }
  }

  lemma {:induction false} NoEscalationUpTo(cat: Catalogue, run: seq<Tables>, k: nat)
    requires IsRun(cat, run, false) && k < |run|
    ensures forall j | 0 <= j <= k :: Bounded(run[0], run[j])
  {
    if k == 0 {
      forall u, g | Holds(run[0], u, Allow, g) ensures DerivesFrom(run[0], g) {
        DerivableIsPartialOrder(g.scope, g.scope, g.scope);
      }
    } else {
      NoEscalationUpTo(cat, run, k - 1);
      assert StepAt(cat, run, k - 1, false);
      if Elsewhere(run[k - 1], run[k]) {
        BoundedElsewhere(run[0], run[k - 1], run[k]);
      } else {
        var who: Principal, request :| LoadedBefore(run, k - 1, who.actor) && !who.actor.isRoot &&
                                       run[k] == Apply(cat, run[k - 1], who, request);
        var j :| 0 <= j <= k - 1 && Loaded(run[j], who.actor);
        BoundedStep(cat, run[0], run[j], run[k - 1], who, request);
      }
    }
  }

  /**
   In a run in which the owner takes no step, nobody ever holds an allow that does not
   derive from one somebody held at the start, even if actors act on stale grants.
   */
  lemma NoEscalation(cat: Catalogue, run: seq<Tables>, k: nat, u: Uuid, g: Grant)
    requires IsRun(cat, run, false) && k < |run| && Holds(run[k], u, Allow, g)
    ensures exists v, s :: Holds(run[0], v, Allow, Grant(g.code, s)) && Derivable(s, g.scope)
  {
    NoEscalationUpTo(cat, run, k);
  }

  /** No actor's own step gives it an allow that does not derive from one it held when it was loaded. */
  lemma OwnStepDoesNotEscalate(cat: Catalogue, loaded: Tables, db: Tables, who: Principal, request: Request, g: Grant)
    requires Loaded(loaded, who.actor) && !who.actor.isRoot
    requires Holds(Apply(cat, db, who, request), who.actor.userId, Allow, g) && !Holds(db, who.actor.userId, Allow, g)
    ensures exists s :: Holds(loaded, who.actor.userId, Allow, Grant(g.code, s)) && Derivable(s, g.scope)
    ensures IsDangerous(cat, g.code) ==> who.stepUp
  {
    StepGrantsOnlyDerivable(cat, db, who, request, who.actor.userId, g);
    var h :| h in EffectiveScopes(cat, who.actor, g.code) && Derivable(h, g.scope);
    assert Grant(g.code, h) in who.actor.allows;
    LoadedHolds(loaded, who.actor, Grant(g.code, h));
  }

  /** A denial is lifted early only by someone else, who could have granted what it denies. */
  lemma DenialsAreLiftedByHolders(cat: Catalogue, db: Tables, who: Principal, request: Request, u: Uuid, o: Uuid)
    requires HasByOverride(db, u, o) && !HasByOverride(Apply(cat, db, who, request), u, o)
    ensures u != who.actor.userId && db.owner != Some(u)
    ensures Justified(cat, who, db.overrides[o].code, ScopeOf(db.overrides[o]))
  {
    DecideIsChecked(cat, db, who, request);
  }

  // ---------------------------------------------------------------------------
  // The envelope
  // ---------------------------------------------------------------------------

  ghost predicate SoundRole(cat: Catalogue, role: Role) {
    && OneScopeEach(role.permissions)
    && forall p | p in role.permissions :: FitsRole(cat, role.allowedType, p)
  }

  ghost predicate SoundAssignment(db: Tables, a: Assignment) {
    && a.userId in db.users && a.roleId in db.roles && db.owner != Some(a.userId)
    && db.users[a.userId].principalType == db.roles[a.roleId].allowedType
  }

  ghost predicate SoundOverride(cat: Catalogue, db: Tables, o: Override) {
    && o.userId in db.users && db.owner != Some(o.userId) && IsCoherent(ScopeOf(o))
    && EnvelopePermits(cat, o.code, db.users[o.userId].principalType)
  }

  /**
   Roles contain only what their principal type may hold, assignments match the person's
   type, overrides stay in the person's envelope, and the owner has neither.
   */
  ghost predicate Sound(cat: Catalogue, db: Tables) {
    && (forall r | r in db.roles :: SoundRole(cat, db.roles[r]))
    && (forall a | a in db.assignments :: SoundAssignment(db, a))
    && (forall o | o in db.overrides :: SoundOverride(cat, db, db.overrides[o]))
  }

  lemma ChangeKeepsAssignments(cat: Catalogue, db: Tables, who: Principal, change: Change)
    requires Checked(cat, db, who, change) && forall a | a in db.assignments :: SoundAssignment(db, a)
    ensures var after := Perform(cat, db, change); forall a | a in after.assignments :: SoundAssignment(after, a)
  {
    var after := Perform(cat, db, change);
    forall a | a in after.assignments ensures SoundAssignment(after, a) {
      assert a in db.assignments ==> SoundAssignment(db, a);
      assert change.RoleDeleted? ==> a.userId in Holders(db, a.roleId);
    }
  }

  lemma ChangeKeepsOverrides(cat: Catalogue, db: Tables, who: Principal, change: Change)
    requires Checked(cat, db, who, change) && forall o | o in db.overrides :: SoundOverride(cat, db, db.overrides[o])
    ensures var after := Perform(cat, db, change); forall o | o in after.overrides :: SoundOverride(cat, after, after.overrides[o])
  {
    var after := Perform(cat, db, change);
    forall o | o in after.overrides ensures SoundOverride(cat, after, after.overrides[o]) {
      assert o in db.overrides ==> SoundOverride(cat, db, db.overrides[o]);
    }
  }

  lemma ChangeKeepsSound(cat: Catalogue, db: Tables, who: Principal, change: Change)
    requires Sound(cat, db) && Checked(cat, db, who, change)
    ensures Sound(cat, Perform(cat, db, change))
  {
    ChangeKeepsAssignments(cat, db, who, change);
    ChangeKeepsOverrides(cat, db, who, change);
    var after := Perform(cat, db, change);
    forall r | r in after.roles ensures SoundRole(cat, after.roles[r]) {
      assert r in db.roles ==> SoundRole(cat, db.roles[r]);
    }
  }

  /** Ownership, principal types and system roles are as they were. */
  ghost predicate Fixed(before: Tables, after: Tables) {
    && after.owner == before.owner
    && (forall u | u in before.users :: u in after.users && after.users[u].principalType == before.users[u].principalType)
    && (forall r | r in before.roles && before.roles[r].isSystem :: r in after.roles && after.roles[r] == before.roles[r])
  }

  lemma ApplyKeepsSound(cat: Catalogue, db: Tables, who: Principal, request: Request)
    requires Sound(cat, db)
    ensures Sound(cat, Apply(cat, db, who, request)) && Fixed(db, Apply(cat, db, who, request))
  {
    DecideIsChecked(cat, db, who, request);
    var decided := Decide(cat, db, who, request);
    if decided.Ok? {
      ChangeKeepsSound(cat, db, who, decided.value);
      ChangeKeepsFixed(cat, db, who, decided.value);
    }
  }

  lemma ChangeKeepsFixed(cat: Catalogue, db: Tables, who: Principal, change: Change)
    requires Checked(cat, db, who, change)
    ensures Fixed(db, Perform(cat, db, change))
  {
  }

  lemma SoundElsewhere(cat: Catalogue, before: Tables, after: Tables)
    requires Sound(cat, before) && Elsewhere(before, after)
    ensures Sound(cat, after) && Fixed(before, after)
  {
  }

  lemma FixedIsTransitive(a: Tables, b: Tables, c: Tables)
    requires Fixed(a, b) && Fixed(b, c)
    ensures Fixed(a, c)
  {
  }

  lemma {:induction false} EnvelopeIsKept(cat: Catalogue, run: seq<Tables>, k: nat)
    requires IsRun(cat, run, true) && Sound(cat, run[0]) && k < |run|
    ensures Sound(cat, run[k]) && Fixed(run[0], run[k])
  {
    if k > 0 {
      EnvelopeIsKept(cat, run, k - 1);
      assert StepAt(cat, run, k - 1, true);
      if Elsewhere(run[k - 1], run[k]) {
        SoundElsewhere(cat, run[k - 1], run[k]);
      } else {
        var who: Principal, request :| run[k] == Apply(cat, run[k - 1], who, request);
        ApplyKeepsSound(cat, run[k - 1], who, request);
      }
      FixedIsTransitive(run[0], run[k - 1], run[k]);
    }
  }

  /**
   In every state of every run, with the owner acting or not, nobody holds a permission
   outside the envelope of their principal type, and the owner holds none at all.
   */
  lemma HeldWithinEnvelope(cat: Catalogue, run: seq<Tables>, k: nat, u: Uuid, effect: Effect, g: Grant)
    requires IsRun(cat, run, true) && Sound(cat, run[0]) && k < |run| && Holds(run[k], u, effect, g)
    ensures u in run[k].users && EnvelopePermits(cat, g.code, run[k].users[u].principalType)
    ensures run[k].owner != Some(u)
  {
    EnvelopeIsKept(cat, run, k);
    SoundlyHeld(cat, run[k], u, effect, g);
  }

  lemma SoundlyHeld(cat: Catalogue, db: Tables, u: Uuid, effect: Effect, g: Grant)
    requires Sound(cat, db) && Holds(db, u, effect, g)
    ensures u in db.users && EnvelopePermits(cat, g.code, db.users[u].principalType) && db.owner != Some(u)
  {
  }

  // ---------------------------------------------------------------------------
  // The invalidation key
  // ---------------------------------------------------------------------------

  ghost predicate OwnsOverride(db: Tables, u: Uuid, o: Uuid) {
    o in db.overrides && db.overrides[o].userId == u
  }

  /** The stored grants of `u` are the same, expired or not. */
  ghost predicate SameStored(before: Tables, after: Tables, u: Uuid) {
    && (forall r, p :: HasByRole(before, u, r, p) <==> HasByRole(after, u, r, p))
    && (forall o :: OwnsOverride(before, u, o) <==> OwnsOverride(after, u, o))
    && (forall o | OwnsOverride(before, u, o) && OwnsOverride(after, u, o) :: after.overrides[o] == before.overrides[o])
  }

  /** At one time, the same stored grants are the same rows for the loader. */
  lemma SameStoredIsSameRows(before: Tables, after: Tables, u: Uuid, row: GrantRow)
    requires SameStored(before, after, u) && before.clock == after.clock
    ensures IsGrantRow(before, u, row) <==> IsGrantRow(after, u, row)
  {
    assert forall o :: HasByOverride(before, u, o) ==> OwnsOverride(before, u, o) && OwnsOverride(after, u, o);
    assert forall o :: HasByOverride(after, u, o) ==> OwnsOverride(before, u, o) && OwnsOverride(after, u, o);
  }

  /** The change raises the security version of `u`. */
  ghost predicate IsBumped(db: Tables, change: Change, u: Uuid) {
    match change
    case RoleReplaced(roleId, _) => Assignment(u, roleId) in db.assignments
    case RoleAssigned(userId, _) => u == userId
    case RoleUnassigned(userId, _) => u == userId
    case OverrideCreated(_, o) => u == o.userId
    case OverrideDeleted(userId, _) => u == userId
    case _ => false
  }

  lemma SameStoredUnlessBumped(cat: Catalogue, db: Tables, who: Principal, change: Change, u: Uuid)
    requires Sound(cat, db) && Checked(cat, db, who, change) && !IsBumped(db, change, u)
    ensures SameStored(db, Perform(cat, db, change), u)
  {
    assert forall a | a in db.assignments :: SoundAssignment(db, a) && a.userId in Holders(db, a.roleId);
  }

  lemma BumpRaisesVersion(cat: Catalogue, db: Tables, who: Principal, change: Change, u: Uuid)
    requires Checked(cat, db, who, change) && IsBumped(db, change, u)
    requires forall a | a in db.assignments :: SoundAssignment(db, a)
    ensures u in db.users && u in Perform(cat, db, change).users
    ensures Perform(cat, db, change).users[u].securityVersion > db.users[u].securityVersion
  {
  }

  lemma VersionsNeverFall(cat: Catalogue, db: Tables, change: Change, u: Uuid)
    requires u in db.users
    ensures u in Perform(cat, db, change).users
    ensures Perform(cat, db, change).users[u].securityVersion >= db.users[u].securityVersion
  {
  }

  /** A request that changes the stored grants of a user raises that user's security version. */
  lemma ChangedGrantsRaiseVersion(cat: Catalogue, db: Tables, who: Principal, request: Request, u: Uuid)
    requires Sound(cat, db) && u in db.users
    ensures var after := Apply(cat, db, who, request);
            && u in after.users && after.users[u].securityVersion >= db.users[u].securityVersion
            && (!SameStored(db, after, u) ==> after.users[u].securityVersion > db.users[u].securityVersion)
  {
    DecideIsChecked(cat, db, who, request);
    var decided := Decide(cat, db, who, request);
    if decided.Ok? {
      VersionsNeverFall(cat, db, decided.value, u);
      if IsBumped(db, decided.value, u) {
        BumpRaisesVersion(cat, db, who, decided.value, u);
      } else {
        SameStoredUnlessBumped(cat, db, who, decided.value, u);
      }
    }
  }

  lemma StepRaisesVersion(cat: Catalogue, run: seq<Tables>, k: nat, u: Uuid)
    requires k + 1 < |run| && IsRun(cat, run, true) && Sound(cat, run[k]) && u in run[k].users
    ensures u in run[k + 1].users && run[k + 1].users[u].securityVersion >= run[k].users[u].securityVersion
    ensures run[k + 1].users[u].securityVersion == run[k].users[u].securityVersion ==> SameStored(run[k], run[k + 1], u)
  {
    assert StepAt(cat, run, k, true);
    if !Elsewhere(run[k], run[k + 1]) {
      var who: Principal, request :| run[k + 1] == Apply(cat, run[k], who, request);
      ChangedGrantsRaiseVersion(cat, run[k], who, request, u);
    }
  }

  /**
   The security version is a sound key for a cache: while a user's version is the same,
   so are the stored grants, whatever ran in between.
   */
  lemma {:induction false} SameVersionSameGrants(cat: Catalogue, run: seq<Tables>, i: nat, j: nat, u: Uuid)
    requires IsRun(cat, run, true) && Sound(cat, run[0]) && i <= j < |run| && u in run[i].users
    ensures u in run[j].users && run[j].users[u].securityVersion >= run[i].users[u].securityVersion
    ensures run[j].users[u].securityVersion == run[i].users[u].securityVersion ==> SameStored(run[i], run[j], u)
    decreases j
  {
    if i < j {
      SameVersionSameGrants(cat, run, i, j - 1, u);
      EnvelopeIsKept(cat, run, j - 1);
      StepRaisesVersion(cat, run, j - 1, u);
      if run[j].users[u].securityVersion == run[i].users[u].securityVersion {
        SameStoredIsTransitive(run[i], run[j - 1], run[j], u);
      }
    }
  }

  lemma SameStoredIsTransitive(a: Tables, b: Tables, c: Tables, u: Uuid)
    requires SameStored(a, b, u) && SameStored(b, c, u)
    ensures SameStored(a, c, u)
  {
  }

  // ---------------------------------------------------------------------------
  // Dangerous authority mandates a second factor
  // ---------------------------------------------------------------------------

  ghost predicate HoldsDangerous(cat: Catalogue, db: Tables, u: Uuid) {
    || (exists r :: Assignment(u, r) in db.assignments && r in db.roles && AnyDangerous(cat, db.roles[r].permissions))
    || (exists o :: o in db.overrides && db.overrides[o].userId == u && db.overrides[o].effect.Allow? &&
                    IsDangerous(cat, db.overrides[o].code))
  }

  /** Everyone with dangerous authority is required to enrol. */
  ghost predicate FactorsMandated(cat: Catalogue, db: Tables) {
    forall u | u in db.users && HoldsDangerous(cat, db, u) :: db.users[u].mfaRequired
  }

  /** A holder of the role who is not required to enrol. */
  ghost predicate HasUnmandatedHolder(db: Tables, roleId: Uuid) {
    exists u :: u in db.users && Assignment(u, roleId) in db.assignments && !db.users[u].mfaRequired
  }

  /**
   The mandate survives every change except one: replacing a role's contents by
   something dangerous while a holder is not required to enrol.
   */
  lemma MandateIsKeptUnlessRoleReplaced(cat: Catalogue, db: Tables, who: Principal, change: Change)
    requires Sound(cat, db) && FactorsMandated(cat, db) && Checked(cat, db, who, change)
    ensures FactorsMandated(cat, Perform(cat, db, change)) <==>
              !(change.RoleReplaced? && AnyDangerous(cat, change.permissions) && HasUnmandatedHolder(db, change.roleId))
  {
    var after := Perform(cat, db, change);
    if change.RoleReplaced? && AnyDangerous(cat, change.permissions) && HasUnmandatedHolder(db, change.roleId) {
      var u :| u in db.users && Assignment(u, change.roleId) in db.assignments && !db.users[u].mfaRequired;
      assert HoldsDangerous(cat, after, u) && !after.users[u].mfaRequired;
    } else {
      forall u | u in after.users && HoldsDangerous(cat, after, u) ensures after.users[u].mfaRequired {
        DangerIsMandated(cat, db, who, change, u);
      }
    }
  }

  lemma DangerIsMandated(cat: Catalogue, db: Tables, who: Principal, change: Change, u: Uuid)
    requires Checked(cat, db, who, change) && u in db.users
    requires !(change.RoleReplaced? && AnyDangerous(cat, change.permissions) && HasUnmandatedHolder(db, change.roleId))
    requires HoldsDangerous(cat, Perform(cat, db, change), u)
    requires HoldsDangerous(cat, db, u) ==> db.users[u].mfaRequired
    requires forall a | a in db.assignments :: SoundAssignment(db, a)
    ensures Perform(cat, db, change).users[u].mfaRequired
  {
    var after := Perform(cat, db, change);
    if r :| Assignment(u, r) in after.assignments && r in after.roles && AnyDangerous(cat, after.roles[r].permissions) {
      if change.RoleCreated? && r == change.roleId {
        assert SoundAssignment(db, Assignment(u, r));
      }
    }
  }
}
