/**
 Who may do what: scopes, the evaluator, the delegation guard, and what the evaluator
 knows about an actor. The permission catalogue is a parameter throughout.
 */
module Authorization {
  import opened Bytes

  type Uuid = nat

  datatype PrincipalType = Internal | Client

  datatype MaxPrincipalType = InternalOnly | Anyone

  datatype ResourceType = Project | Task | DepartmentResource | ClientAccount | User

  datatype ScopeType = Global | Department | Assigned | Own | Resource

  datatype Scope = Scope(scopeType: ScopeType, resourceType: Option<ResourceType>, resourceId: Option<Uuid>)

  datatype Effect = Allow | Deny

  datatype Grant = Grant(code: string, scope: Scope)

  datatype PermissionDef = PermissionDef(maxPrincipalType: MaxPrincipalType, isDangerous: bool)

  type Catalogue = map<string, PermissionDef>

  datatype ActorContext = ActorContext(
    userId: Uuid,
    principalType: PrincipalType,
    isRoot: bool,
    departmentIds: seq<Uuid>,
    allows: seq<Grant>,
    denies: seq<Grant>)

  datatype TargetContext = TargetContext(
    resourceType: ResourceType,
    resourceId: Uuid,
    departmentId: Option<Uuid>,
    actorIsMember: bool,
    isActorSelf: bool)

  datatype Target = Collection | Object(context: TargetContext)

  datatype Decision =
    | AllowRootOwnership
    | AllowGranted(reached: ScopeType)
    | DenyUnknownPermission
    | DenyPrincipalEnvelope
    | DenyExplicitOverride
    | DenyOutOfScope
    | DenyNoGrant

  // ---------------------------------------------------------------------------
  // Scopes
  // ---------------------------------------------------------------------------

  function Simple(scopeType: ScopeType): Scope {
    Scope(scopeType, None, None)
  }

  /** A RESOURCE scope names an object and no other scope does. */
  predicate IsCoherent(scope: Scope) {
    if scope.scopeType.Resource? then scope.resourceType.Some? && scope.resourceId.Some?
    else scope.resourceType.None? && scope.resourceId.None?
  }

  predicate Permits(max: MaxPrincipalType, principal: PrincipalType) {
    max.Anyone? || principal.Internal?
  }

  predicate EnvelopePermits(cat: Catalogue, code: string, principal: PrincipalType) {
    code in cat && Permits(cat[code].maxPrincipalType, principal)
  }

  predicate IsDangerous(cat: Catalogue, code: string) {
    code in cat && cat[code].isDangerous
  }

  predicate ScopeCovers(scope: Scope, actor: ActorContext, target: Target) {
    && IsCoherent(scope)
    && match target {
         case Collection => scope.scopeType.Global?
         case Object(context) =>
           match scope.scopeType
           case Global => true
           case Own => context.isActorSelf
           case Department => context.departmentId.Some? && context.departmentId.value in actor.departmentIds
           case Assigned => context.actorIsMember
           case Resource => scope.resourceType == Some(context.resourceType) && scope.resourceId == Some(context.resourceId)
       }
  }

  /** Can an actor holding `held` hand out `requested`? */
  predicate Derivable(held: Scope, requested: Scope) {
    && IsCoherent(held) && IsCoherent(requested)
    && match (held.scopeType, requested.scopeType) {
         case (Global, _) => true
         case (Department, Department) => true
         case (Department, Own) => true
         case (Assigned, Assigned) => true
         case (Assigned, Own) => true
         case (Own, Own) => true
         case (Resource, Resource) => held.resourceType == requested.resourceType && held.resourceId == requested.resourceId
         case _ => false
       }
  }

  /** Derivation is a partial order on coherent scopes, and not a total one. */
  lemma DerivableIsPartialOrder(a: Scope, b: Scope, c: Scope)
    ensures IsCoherent(a) <==> Derivable(a, a)
    ensures Derivable(a, b) && Derivable(b, c) ==> Derivable(a, c)
    ensures Derivable(a, b) && Derivable(b, a) ==> a == b
    ensures !Derivable(Simple(Department), Simple(Assigned)) && !Derivable(Simple(Assigned), Simple(Department))
  {
  }

  /** Everything `narrow` reaches, `wide` reaches too, for every actor and target. */
  ghost predicate ReachesAll(wide: Scope, narrow: Scope) {
    forall actor, target | ScopeCovers(narrow, actor, target) :: ScopeCovers(wide, actor, target)
  }

  lemma NotReached(wide: Scope, narrow: Scope, actor: ActorContext, target: Target)
    requires ScopeCovers(narrow, actor, target) && !ScopeCovers(wide, actor, target)
    ensures !ReachesAll(wide, narrow)
  {
  }

  /**
   What may be handed out is what reaches no further, except that a DEPARTMENT or
   ASSIGNED holder may hand out SELF although its own scope need not reach the
   grantee's own record.
   */
  lemma DerivableIsReach(held: Scope, requested: Scope)
    requires IsCoherent(held) && IsCoherent(requested)
    ensures ReachesAll(held, requested) <==>
              Derivable(held, requested) &&
              !((held.scopeType.Department? || held.scopeType.Assigned?) && requested.scopeType.Own?)
    ensures Derivable(held, requested) <==>
              ReachesAll(held, requested) ||
              ((held.scopeType.Department? || held.scopeType.Assigned?) && requested.scopeType.Own?)
  {
    var nobody := ActorContext(0, Internal, false, [], [], []);
    var here := nobody.(departmentIds := [0]);
    if requested.scopeType.Global? && !held.scopeType.Global? {
      NotReached(held, requested, nobody, Collection);
    } else if !held.scopeType.Global? && held != requested {
      match requested.scopeType {
        case Department => NotReached(held, requested, here, Object(TargetContext(OtherType(held), 0, Some(0), false, false)));
        case Assigned => NotReached(held, requested, nobody, Object(TargetContext(OtherType(held), 0, None, true, false)));
        case Own => NotReached(held, requested, nobody, Object(TargetContext(OtherType(held), 0, None, false, true)));
        case Resource =>
          NotReached(held, requested, nobody,
                     Object(TargetContext(requested.resourceType.value, requested.resourceId.value, None, false, false)));
        case Global =>
      }
    }
  }

  /** A resource type that `scope` does not name. */
  function OtherType(scope: Scope): ResourceType {
    if scope.resourceType == Some(Project) then Task else Project
  }

  // ---------------------------------------------------------------------------
  // The evaluator
  // ---------------------------------------------------------------------------

  /** The first of the grants for `code` that reaches the target. */
  function FirstCovering(grants: seq<Grant>, code: string, actor: ActorContext, target: Target): (found: Option<Scope>)
    ensures found.Some? ==> Grant(code, found.value) in grants && ScopeCovers(found.value, actor, target)
    ensures found.None? <==> forall g | g in grants && g.code == code :: !ScopeCovers(g.scope, actor, target)
  {
    if grants == [] then None
    else if grants[0].code == code && ScopeCovers(grants[0].scope, actor, target) then Some(grants[0].scope)
    else FirstCovering(grants[1..], code, actor, target)
  }

  function Evaluate(cat: Catalogue, actor: ActorContext, code: string, target: Target): Decision {
    if actor.isRoot then AllowRootOwnership
    else if code !in cat then DenyUnknownPermission
    else if !Permits(cat[code].maxPrincipalType, actor.principalType) then DenyPrincipalEnvelope
    else if FirstCovering(actor.denies, code, actor, target).Some? then DenyExplicitOverride
    else
      match FirstCovering(actor.allows, code, actor, target)
      case Some(scope) => AllowGranted(scope.scopeType)
      case None => if exists g :: g in actor.allows && g.code == code then DenyOutOfScope else DenyNoGrant
  }

  predicate IsAllowed(decision: Decision) {
    decision.AllowRootOwnership? || decision.AllowGranted?
  }

  /** Some grant for `code` in the list reaches the target. */
  ghost predicate Reaches(grants: seq<Grant>, code: string, actor: ActorContext, target: Target) {
    exists g :: g in grants && g.code == code && ScopeCovers(g.scope, actor, target)
  }

  predicate Hits(grant: Grant, code: string, actor: ActorContext, target: Target) {
    grant.code == code && ScopeCovers(grant.scope, actor, target)
  }

  lemma {:induction false} FirstCoveringIs(grants: seq<Grant>, code: string, actor: ActorContext, target: Target, i: nat)
    requires i < |grants| && Hits(grants[i], code, actor, target)
    requires forall k | 0 <= k < i :: !Hits(grants[k], code, actor, target)
    ensures FirstCovering(grants, code, actor, target) == Some(grants[i].scope)
  {
    if i > 0 {
      assert !Hits(grants[0], code, actor, target);
      FirstCoveringIs(grants[1..], code, actor, target, i - 1);
    }
  }

  /** The evaluator's loops. */
  method EvaluateInOrder(cat: Catalogue, actor: ActorContext, code: string, target: Target) returns (decision: Decision)
    ensures decision == Evaluate(cat, actor, code, target)
  {
    if actor.isRoot {
      return AllowRootOwnership;
    }
    if code !in cat {
      return DenyUnknownPermission;
    }
    if !Permits(cat[code].maxPrincipalType, actor.principalType) {
      return DenyPrincipalEnvelope;
    }
    for i := 0 to |actor.denies|
      invariant forall k | 0 <= k < i :: !Hits(actor.denies[k], code, actor, target)
    {
      if Hits(actor.denies[i], code, actor, target) {
        FirstCoveringIs(actor.denies, code, actor, target, i);
        return DenyExplicitOverride;
      }
    }
    var hadAnyGrant := false;
    for i := 0 to |actor.allows|
      invariant forall k | 0 <= k < i :: !Hits(actor.allows[k], code, actor, target)
      invariant hadAnyGrant <==> exists k :: 0 <= k < i && actor.allows[k].code == code
    {
      if actor.allows[i].code == code {
        hadAnyGrant := true;
        if ScopeCovers(actor.allows[i].scope, actor, target) {
          FirstCoveringIs(actor.allows, code, actor, target, i);
          return AllowGranted(actor.allows[i].scope.scopeType);
        }
      }
    }
    decision := if hadAnyGrant then DenyOutOfScope else DenyNoGrant;
  }

  /** Denials win, the envelope comes before grants, and the order of grants does not matter. */
  lemma EvaluateAllowsExactly(cat: Catalogue, actor: ActorContext, code: string, target: Target)
    ensures IsAllowed(Evaluate(cat, actor, code, target)) <==>
              actor.isRoot ||
              (EnvelopePermits(cat, code, actor.principalType) &&
               !Reaches(actor.denies, code, actor, target) && Reaches(actor.allows, code, actor, target))
  {
  }

  /** The first allow for `code` that reaches the target does so at `reached`. */
  ghost predicate FirstReachesAt(actor: ActorContext, code: string, target: Target, reached: ScopeType) {
    exists i :: 0 <= i < |actor.allows| && Hits(actor.allows[i], code, actor, target) &&
                actor.allows[i].scope.scopeType == reached &&
                forall k | 0 <= k < i :: !Hits(actor.allows[k], code, actor, target)
  }

  lemma FirstAllowDecides(cat: Catalogue, actor: ActorContext, code: string, target: Target, reached: ScopeType)
    requires !actor.isRoot && EnvelopePermits(cat, code, actor.principalType) && !Reaches(actor.denies, code, actor, target)
    ensures Evaluate(cat, actor, code, target) == AllowGranted(reached) <==> FirstReachesAt(actor, code, target, reached)
  {
    if FirstReachesAt(actor, code, target, reached) {
      var i :| 0 <= i < |actor.allows| && Hits(actor.allows[i], code, actor, target) &&
               actor.allows[i].scope.scopeType == reached &&
               forall k | 0 <= k < i :: !Hits(actor.allows[k], code, actor, target);
      FirstCoveringIs(actor.allows, code, actor, target, i);
    }
    if Evaluate(cat, actor, code, target) == AllowGranted(reached) {
      var i := FirstHit(actor.allows, code, actor, target);
      FirstCoveringIs(actor.allows, code, actor, target, i);
    }
  }

  lemma {:induction false} FirstHit(grants: seq<Grant>, code: string, actor: ActorContext, target: Target) returns (i: nat)
    requires Reaches(grants, code, actor, target)
    ensures i < |grants| && Hits(grants[i], code, actor, target)
    ensures forall k | 0 <= k < i :: !Hits(grants[k], code, actor, target)
  {
    if Hits(grants[0], code, actor, target) {
      i := 0;
    } else {
      assert grants == [grants[0]] + grants[1..];
      i := FirstHit(grants[1..], code, actor, target);
      i := i + 1;
    }
  }

  /** Each decision and when it is taken. */
  lemma DecisionsAreExact(cat: Catalogue, actor: ActorContext, code: string, target: Target, reached: ScopeType)
    ensures var decision := Evaluate(cat, actor, code, target);
            var within := !actor.isRoot && EnvelopePermits(cat, code, actor.principalType);
            var undenied := within && !Reaches(actor.denies, code, actor, target);
            && (decision == AllowRootOwnership <==> actor.isRoot)
            && (decision == DenyUnknownPermission <==> !actor.isRoot && code !in cat)
            && (decision == DenyPrincipalEnvelope <==>
                  !actor.isRoot && code in cat && cat[code].maxPrincipalType.InternalOnly? && actor.principalType.Client?)
            && (decision == DenyExplicitOverride <==> within && Reaches(actor.denies, code, actor, target))
            && (decision == AllowGranted(reached) <==> undenied && FirstReachesAt(actor, code, target, reached))
            && (decision == DenyOutOfScope <==>
                  undenied && !Reaches(actor.allows, code, actor, target) && exists g :: g in actor.allows && g.code == code)
            && (decision == DenyNoGrant <==> undenied && forall g | g in actor.allows :: g.code != code)
  {
    if !actor.isRoot && EnvelopePermits(cat, code, actor.principalType) && !Reaches(actor.denies, code, actor, target) {
      FirstAllowDecides(cat, actor, code, target, reached);
    }
  }

  /** More allows never shrink, and more denials never widen, what an actor may do. */
  lemma EvaluateIsMonotone(cat: Catalogue, less: ActorContext, more: ActorContext, code: string, target: Target)
    requires more == less.(allows := more.allows, denies := more.denies)
    requires forall g :: g in less.allows ==> g in more.allows
    requires forall g :: g in more.denies ==> g in less.denies
    ensures IsAllowed(Evaluate(cat, less, code, target)) ==> IsAllowed(Evaluate(cat, more, code, target))
  {
  }

  /** The coherent scopes of the allows for `code`, in order. */
  function ScopesFor(grants: seq<Grant>, code: string): (scopes: seq<Scope>)
    ensures forall s :: s in scopes <==> Grant(code, s) in grants && IsCoherent(s)
  {
    if grants == [] then []
    else
      var rest := ScopesFor(grants[1..], code);
      if grants[0].code == code && IsCoherent(grants[0].scope) then [grants[0].scope] + rest else rest
  }

  /** Without scopes equal to the one just before. */
  function Dedup(scopes: seq<Scope>): (r: seq<Scope>)
    ensures forall s :: s in r <==> s in scopes
    ensures forall i | 0 < i < |r| :: r[i] != r[i - 1]
    ensures scopes != [] ==> r != [] && r[|r| - 1] == scopes[|scopes| - 1]
  {
    if |scopes| <= 1 then scopes
    else
      var rest := Dedup(scopes[..|scopes| - 1]);
      var last := scopes[|scopes| - 1];
      if last == scopes[|scopes| - 2] then rest else rest + [last]
  }

  predicate GloballyDenied(denies: seq<Grant>, code: string) {
    exists g :: g in denies && g.code == code && g.scope.scopeType.Global?
  }

  function EffectiveScopes(cat: Catalogue, actor: ActorContext, code: string): seq<Scope> {
    if actor.isRoot then [Simple(Global)]
    else if !EnvelopePermits(cat, code, actor.principalType) || GloballyDenied(actor.denies, code) then []
    else Dedup(ScopesFor(actor.allows, code))
  }

  /** Every scope of the actor is one the loader can produce. */
  ghost predicate AllCoherent(actor: ActorContext) {
    && (forall g :: g in actor.allows ==> IsCoherent(g.scope))
    && (forall g :: g in actor.denies ==> IsCoherent(g.scope))
  }

  /** Holding GLOBAL effectively is the same as being allowed the collection. */
  lemma CollectionNeedsGlobal(cat: Catalogue, actor: ActorContext, code: string)
    requires AllCoherent(actor)
    ensures IsAllowed(Evaluate(cat, actor, code, Collection)) <==> Simple(Global) in EffectiveScopes(cat, actor, code)
  {
  }

  /** Who may act on anything at all holds a scope that reaches it, and may pass that scope on. */
  lemma AccessNeedsEffectiveScope(cat: Catalogue, actor: ActorContext, code: string, target: Target)
    requires AllCoherent(actor) && IsAllowed(Evaluate(cat, actor, code, target))
    ensures exists s :: s in EffectiveScopes(cat, actor, code) && ScopeCovers(s, actor, target) && Derivable(s, s)
  {
    EvaluateAllowsExactly(cat, actor, code, target);
    if actor.isRoot {
      assert ScopeCovers(Simple(Global), actor, target);
    } else {
      var g :| g in actor.allows && g.code == code && ScopeCovers(g.scope, actor, target);
      assert Grant(code, g.scope) in actor.allows;
      forall d | d in actor.denies && d.code == code && d.scope.scopeType.Global? ensures false {
        assert ScopeCovers(d.scope, actor, target);
      }
      assert g.scope in EffectiveScopes(cat, actor, code);
    }
  }

  /** Scopes of an actor other than the owner reach the target exactly if some allow does and GLOBAL is not denied. */
  lemma EffectiveReach(cat: Catalogue, actor: ActorContext, code: string, target: Target)
    requires AllCoherent(actor) && !actor.isRoot
    ensures (exists s :: s in EffectiveScopes(cat, actor, code) && ScopeCovers(s, actor, target)) <==>
              EnvelopePermits(cat, code, actor.principalType) && !GloballyDenied(actor.denies, code) &&
              Reaches(actor.allows, code, actor, target)
  {
  }

  lemma GlobalDenialRefuses(cat: Catalogue, actor: ActorContext, code: string, target: Target)
    requires AllCoherent(actor) && !actor.isRoot && GloballyDenied(actor.denies, code)
    ensures !IsAllowed(Evaluate(cat, actor, code, target))
  {
  }

  /** A denial other than GLOBAL covers the target. */
  ghost predicate NarrowlyDenied(actor: ActorContext, code: string, target: Target) {
    exists g :: g in actor.denies && g.code == code && !g.scope.scopeType.Global? && ScopeCovers(g.scope, actor, target)
  }

  lemma NarrowIsAll(actor: ActorContext, code: string, target: Target)
    requires !GloballyDenied(actor.denies, code)
    ensures NarrowlyDenied(actor, code, target) <==> Reaches(actor.denies, code, actor, target)
  {
  }

  // ---------------------------------------------------------------------------
  // The delegation guard
  // ---------------------------------------------------------------------------

  datatype Refusal =
    | RootProtected
    | SelfModification
    | UnknownPermission
    | OutsideEnvelope
    | InvalidScope
    | StepUpRequired
    | NotHeld
    | NotDerivable
    | PrincipalMismatch
    | SystemRole
    | PermissionDenied
    | NotFound
    | VersionConflict
    | RoleInUse
    | AlreadyAssigned
    | AlreadyExists
    | SubjectArchived
    | DuplicatePermission
    | TooManyPermissions
    | NotInFuture
    | CorruptRow

  /** The person whose authority is changed. */
  datatype Subject = Subject(id: Uuid, principalType: PrincipalType, isRoot: bool, isArchived: bool)

  predicate CanDerive(held: seq<Scope>, requested: Scope) {
    exists h :: h in held && Derivable(h, requested)
  }

  /** The part of the checks that concerns the actor's own authority. */
  function CheckAuthority(cat: Catalogue, actor: ActorContext, stepUp: bool, code: string, scope: Scope): Option<Refusal> {
    if IsDangerous(cat, code) && !stepUp then Some(StepUpRequired)
    else
      var held := EffectiveScopes(cat, actor, code);
      if held == [] then Some(NotHeld)
      else if !CanDerive(held, scope) then Some(NotDerivable)
      else None
  }

  function CheckPermissionGrant(
    cat: Catalogue, actor: ActorContext, subject: Subject, stepUp: bool, code: string, scope: Scope): Option<Refusal>
  {
    if subject.isRoot then Some(RootProtected)
    else if actor.userId == subject.id then Some(SelfModification)
    else if code !in cat then Some(UnknownPermission)
    else if !Permits(cat[code].maxPrincipalType, subject.principalType) then Some(OutsideEnvelope)
    else if !IsCoherent(scope) then Some(InvalidScope)
    else if actor.isRoot then None
    else CheckAuthority(cat, actor, stepUp, code, scope)
  }

  function CheckEachGrant(
    cat: Catalogue, actor: ActorContext, subject: Subject, stepUp: bool, permissions: seq<Grant>): Option<Refusal>
  {
    if permissions == [] then None
    else
      match CheckPermissionGrant(cat, actor, subject, stepUp, permissions[0].code, permissions[0].scope)
      case Some(refusal) => Some(refusal)
      case None => CheckEachGrant(cat, actor, subject, stepUp, permissions[1..])
  }

  function CheckRoleAssignment(
    cat: Catalogue, actor: ActorContext, subject: Subject, stepUp: bool,
    allowedType: PrincipalType, permissions: seq<Grant>): Option<Refusal>
  {
    if subject.isRoot then Some(RootProtected)
    else if actor.userId == subject.id then Some(SelfModification)
    else if allowedType != subject.principalType then Some(PrincipalMismatch)
    else if actor.isRoot then None
    else CheckEachGrant(cat, actor, subject, stepUp, permissions)
  }

  function CheckRolePermission(
    cat: Catalogue, actor: ActorContext, stepUp: bool, allowedType: PrincipalType, code: string, scope: Scope)
    : Option<Refusal>
  {
    if code !in cat then Some(UnknownPermission)
    else if !Permits(cat[code].maxPrincipalType, allowedType) then Some(OutsideEnvelope)
    else if scope.scopeType.Resource? then Some(InvalidScope)
    else if actor.isRoot then None
    else CheckAuthority(cat, actor, stepUp, code, scope)
  }

  function CheckEachRolePermission(
    cat: Catalogue, actor: ActorContext, stepUp: bool, allowedType: PrincipalType, permissions: seq<Grant>)
    : Option<Refusal>
  {
    if permissions == [] then None
    else
      match CheckRolePermission(cat, actor, stepUp, allowedType, permissions[0].code, permissions[0].scope)
      case Some(refusal) => Some(refusal)
      case None => CheckEachRolePermission(cat, actor, stepUp, allowedType, permissions[1..])
  }

  function CheckRoleAuthoring(
    cat: Catalogue, actor: ActorContext, stepUp: bool, isSystem: bool,
    allowedType: PrincipalType, permissions: seq<Grant>): Option<Refusal>
  {
    if isSystem then Some(SystemRole)
    else CheckEachRolePermission(cat, actor, stepUp, allowedType, permissions)
  }

  /** The actor effectively holds something `scope` can be derived from, with a second factor if it is dangerous. */
  ghost predicate MayHandOut(cat: Catalogue, actor: ActorContext, stepUp: bool, code: string, scope: Scope) {
    && (IsDangerous(cat, code) ==> stepUp)
    && CanDerive(EffectiveScopes(cat, actor, code), scope)
  }

  /** What stands in the way of handing out `code` by the actor's own authority. */
  lemma AuthorityRefusals(cat: Catalogue, actor: ActorContext, stepUp: bool, code: string, scope: Scope)
    ensures var refusal := CheckAuthority(cat, actor, stepUp, code, scope);
            var proved := IsDangerous(cat, code) ==> stepUp;
            && (refusal == Some(StepUpRequired) <==> !proved)
            && (refusal == Some(NotHeld) <==> proved && forall s :: s !in EffectiveScopes(cat, actor, code))
            && (refusal == Some(NotDerivable) <==>
                  && proved && (exists s :: s in EffectiveScopes(cat, actor, code))
                  && forall s | s in EffectiveScopes(cat, actor, code) :: !Derivable(s, scope))
            && (refusal.None? <==> MayHandOut(cat, actor, stepUp, code, scope))
  {
    var held := EffectiveScopes(cat, actor, code);
    assert held != [] ==> held[0] in held;
  }

  /** Each refusal of a grant and when it is given; the owner's protection comes before everything else. */
  lemma GrantRefusalsAreExact(
    cat: Catalogue, actor: ActorContext, subject: Subject, stepUp: bool, code: string, scope: Scope)
    ensures var refusal := CheckPermissionGrant(cat, actor, subject, stepUp, code, scope);
            var other := !subject.isRoot && actor.userId != subject.id;
            var fits := other && EnvelopePermits(cat, code, subject.principalType);
            && (refusal == Some(RootProtected) <==> subject.isRoot)
            && (refusal == Some(SelfModification) <==> !subject.isRoot && actor.userId == subject.id)
            && (refusal == Some(UnknownPermission) <==> other && code !in cat)
            && (refusal == Some(OutsideEnvelope) <==> other && code in cat && !fits)
            && (refusal == Some(InvalidScope) <==> fits && !IsCoherent(scope))
            && (fits && IsCoherent(scope) ==>
                  refusal == if actor.isRoot then None else CheckAuthority(cat, actor, stepUp, code, scope))
  {
    AuthorityRefusals(cat, actor, stepUp, code, scope);
  }

  /** The same for a permission that is put into a role of the given type. */
  lemma ContentRefusalsAreExact(
    cat: Catalogue, actor: ActorContext, stepUp: bool, allowedType: PrincipalType, code: string, scope: Scope)
    ensures var refusal := CheckRolePermission(cat, actor, stepUp, allowedType, code, scope);
            var fits := EnvelopePermits(cat, code, allowedType);
            && (refusal == Some(UnknownPermission) <==> code !in cat)
            && (refusal == Some(OutsideEnvelope) <==> code in cat && !fits)
            && (refusal == Some(InvalidScope) <==> fits && scope.scopeType.Resource?)
            && (fits && !scope.scopeType.Resource? ==>
                  refusal == if actor.isRoot then None else CheckAuthority(cat, actor, stepUp, code, scope))
  {
    AuthorityRefusals(cat, actor, stepUp, code, scope);
  }

  /** The permission of a role that is refused first decides what the assignment or the authoring is answered. */
  lemma {:induction false} FirstRefusalDecides(
    cat: Catalogue, actor: ActorContext, subject: Subject, stepUp: bool, permissions: seq<Grant>, i: nat)
    requires i < |permissions|
    requires forall k | 0 <= k < i ::
               CheckPermissionGrant(cat, actor, subject, stepUp, permissions[k].code, permissions[k].scope).None?
    requires CheckPermissionGrant(cat, actor, subject, stepUp, permissions[i].code, permissions[i].scope).Some?
    ensures CheckEachGrant(cat, actor, subject, stepUp, permissions) ==
              CheckPermissionGrant(cat, actor, subject, stepUp, permissions[i].code, permissions[i].scope)
  {
    if i > 0 {
      assert permissions[1..][i - 1] == permissions[i];
      FirstRefusalDecides(cat, actor, subject, stepUp, permissions[1..], i - 1);
    }
  }

  lemma {:induction false} FirstContentRefusalDecides(
    cat: Catalogue, actor: ActorContext, stepUp: bool, allowedType: PrincipalType, permissions: seq<Grant>, i: nat)
    requires i < |permissions|
    requires forall k | 0 <= k < i ::
               CheckRolePermission(cat, actor, stepUp, allowedType, permissions[k].code, permissions[k].scope).None?
    requires CheckRolePermission(cat, actor, stepUp, allowedType, permissions[i].code, permissions[i].scope).Some?
    ensures CheckEachRolePermission(cat, actor, stepUp, allowedType, permissions) ==
              CheckRolePermission(cat, actor, stepUp, allowedType, permissions[i].code, permissions[i].scope)
  {
    if i > 0 {
      assert permissions[1..][i - 1] == permissions[i];
      FirstContentRefusalDecides(cat, actor, stepUp, allowedType, permissions[1..], i - 1);
    }
  }

  /** Each refusal of a role as a whole, before its permissions are looked at. */
  lemma RoleRefusalsAreExact(
    cat: Catalogue, actor: ActorContext, subject: Subject, stepUp: bool,
    allowedType: PrincipalType, permissions: seq<Grant>)
    ensures var refusal := CheckRoleAssignment(cat, actor, subject, stepUp, allowedType, permissions);
            && (refusal == Some(RootProtected) <==> subject.isRoot)
            && (!subject.isRoot && actor.userId == subject.id <==> refusal == Some(SelfModification))
            && (!subject.isRoot && actor.userId != subject.id && allowedType != subject.principalType <==>
                  refusal == Some(PrincipalMismatch))
            && (!subject.isRoot && actor.userId != subject.id && allowedType == subject.principalType ==>
                  refusal == if actor.isRoot then None else CheckEachGrant(cat, actor, subject, stepUp, permissions))
  {
    if !subject.isRoot && actor.userId != subject.id && !CheckEachGrant(cat, actor, subject, stepUp, permissions).None? {
      GrantsAreNotRefusedAsRoles(cat, actor, subject, stepUp, permissions);
    }
  }

  lemma {:induction false} GrantsAreNotRefusedAsRoles(
    cat: Catalogue, actor: ActorContext, subject: Subject, stepUp: bool, permissions: seq<Grant>)
    requires !subject.isRoot && actor.userId != subject.id
    ensures CheckEachGrant(cat, actor, subject, stepUp, permissions) !in
              {Some(RootProtected), Some(SelfModification), Some(PrincipalMismatch)}
  {
    if permissions != [] {
      GrantsAreNotRefusedAsRoles(cat, actor, subject, stepUp, permissions[1..]);
    }
  }

  /** A role may be assigned exactly if every permission in it may be granted one by one. */
  lemma {:induction false} EachGrantIsChecked(
    cat: Catalogue, actor: ActorContext, subject: Subject, stepUp: bool, permissions: seq<Grant>)
    ensures CheckEachGrant(cat, actor, subject, stepUp, permissions).None? <==>
              forall g | g in permissions :: CheckPermissionGrant(cat, actor, subject, stepUp, g.code, g.scope).None?
  {
    if permissions != [] {
      EachGrantIsChecked(cat, actor, subject, stepUp, permissions[1..]);
      assert permissions == [permissions[0]] + permissions[1..];
    }
  }

  lemma {:induction false} EachRolePermissionIsChecked(
    cat: Catalogue, actor: ActorContext, stepUp: bool, allowedType: PrincipalType, permissions: seq<Grant>)
    ensures CheckEachRolePermission(cat, actor, stepUp, allowedType, permissions).None? <==>
              forall g | g in permissions :: CheckRolePermission(cat, actor, stepUp, allowedType, g.code, g.scope).None?
  {
    if permissions != [] {
      EachRolePermissionIsChecked(cat, actor, stepUp, allowedType, permissions[1..]);
      assert permissions == [permissions[0]] + permissions[1..];
    }
  }

  /**
   Composition gives nothing: a role an actor may author and then have assigned by
   anyone contains only what its author could have granted permission by permission.
   */
  lemma AuthoringIsGranting(
    cat: Catalogue, actor: ActorContext, subject: Subject, stepUp: bool,
    allowedType: PrincipalType, permissions: seq<Grant>)
    requires !subject.isRoot && actor.userId != subject.id && subject.principalType == allowedType
    requires forall g | g in permissions :: IsCoherent(g.scope) && !g.scope.scopeType.Resource?
    ensures CheckRoleAuthoring(cat, actor, stepUp, false, allowedType, permissions).None? <==>
              CheckEachGrant(cat, actor, subject, stepUp, permissions).None?
  {
  }

  /** What derives from a scope the actor may hand out, the actor may hand out itself. */
  lemma PassedOnIsGranted(cat: Catalogue, actor: ActorContext, stepUp: bool, code: string, passed: Scope, final: Scope)
    requires MayHandOut(cat, actor, stepUp, code, passed) && Derivable(passed, final)
    ensures MayHandOut(cat, actor, stepUp, code, final)
  {
    var h :| h in EffectiveScopes(cat, actor, code) && Derivable(h, passed);
    DerivableIsPartialOrder(h, passed, final);
  }

  /**
   Delegating in two hops reaches nothing that one hop could not: whatever the second
   actor hands out, the first could have, or it derives from a scope of the second that
   the first could not have given.
   */
  lemma TwoHopsAreOne(cat: Catalogue, first: ActorContext, second: ActorContext, stepUp: bool, code: string, final: Scope)
    requires MayHandOut(cat, second, stepUp, code, final)
    ensures || MayHandOut(cat, first, stepUp, code, final)
            || exists own :: own in EffectiveScopes(cat, second, code) && Derivable(own, final) &&
                             !MayHandOut(cat, first, stepUp, code, own)
  {
    var own :| own in EffectiveScopes(cat, second, code) && Derivable(own, final);
    if MayHandOut(cat, first, stepUp, code, own) {
      PassedOnIsGranted(cat, first, stepUp, code, own, final);
    }
  }

  // ---------------------------------------------------------------------------
  // Loading an actor
  // ---------------------------------------------------------------------------

  /** A row of the grants query; a text that does not parse, like a NULL, is None. */
  datatype GrantRow = GrantRow(
    code: string,
    scopeType: Option<ScopeType>,
    effect: Option<Effect>,
    resourceType: Option<ResourceType>,
    resourceId: Option<Uuid>)

  /** The scope a stored row is loaded as. An object on a scope other than RESOURCE is dropped. */
  function LoadScope(scopeType: ScopeType, resourceType: Option<ResourceType>, resourceId: Option<Uuid>): (s: Option<Scope>)
    ensures s.Some? ==> IsCoherent(s.value)
  {
    if !scopeType.Resource? then Some(Simple(scopeType))
    else if resourceType.Some? && resourceId.Some? then Some(Scope(Resource, resourceType, resourceId))
    else None
  }

  /** The same for a delegation decision, where a row that contradicts itself is an error. */
  function ScopeFromRow(scopeType: ScopeType, resourceType: Option<ResourceType>, resourceId: Option<Uuid>)
    : Result<Scope, Refusal>
  {
    var scope := Scope(scopeType, resourceType, resourceId);
    if IsCoherent(scope) then Ok(scope) else Err(CorruptRow)
  }

  /**
   The two readings agree on coherent rows. Where delegation stops, the loader still reads a
   scope exactly if the row names an object, or half of one, on a scope other than RESOURCE.
   */
  lemma ScopeReadings(scopeType: ScopeType, resourceType: Option<ResourceType>, resourceId: Option<Uuid>)
    ensures var (read, loaded) := (ScopeFromRow(scopeType, resourceType, resourceId), LoadScope(scopeType, resourceType, resourceId));
            && (read.Ok? ==> loaded == Some(read.value))
            && (read.Err? && loaded.Some? <==> !scopeType.Resource? && (resourceType.Some? || resourceId.Some?))
            && (read.Err? && loaded.Some? ==> loaded == Some(Simple(scopeType)))
  {
  }

  function RowGrant(row: GrantRow, effect: Effect): Option<Grant> {
    if row.scopeType.Some? && row.effect == Some(effect) then
      match LoadScope(row.scopeType.value, row.resourceType, row.resourceId)
      case Some(scope) => Some(Grant(row.code, scope))
      case None => None
    else None
  }

  function GrantsWith(rows: seq<GrantRow>, effect: Effect): seq<Grant> {
    if rows == [] then []
    else
      var before := GrantsWith(rows[..|rows| - 1], effect);
      match RowGrant(rows[|rows| - 1], effect)
      case Some(grant) => before + [grant]
      case None => before
  }

  /** A grant is held exactly if a readable row gives it, and every grant held is coherent. */
  lemma {:induction false} GrantsWithAreExact(rows: seq<GrantRow>, effect: Effect)
    ensures forall g :: g in GrantsWith(rows, effect) <==> exists row :: row in rows && RowGrant(row, effect) == Some(g)
    ensures forall g :: g in GrantsWith(rows, effect) ==> IsCoherent(g.scope)
  {
    if rows != [] {
      var before := rows[..|rows| - 1];
      GrantsWithAreExact(before, effect);
      assert rows == before + [rows[|rows| - 1]];
    }
  }

  /** The row names `g`: its own code, and its scope with the object only if that is RESOURCE. */
  ghost predicate Names(row: GrantRow, g: Grant) {
    && row.code == g.code && row.scopeType == Some(g.scope.scopeType)
    && (if g.scope.scopeType.Resource? then
          && g.scope.resourceType.Some? && g.scope.resourceType == row.resourceType
          && g.scope.resourceId.Some? && g.scope.resourceId == row.resourceId
        else g.scope.resourceType.None? && g.scope.resourceId.None?)
  }

  /** Rows with ALLOW become allows and rows with DENY denials, by what they name. */
  lemma LoadedRowsAreExact(rows: seq<GrantRow>, effect: Effect, g: Grant)
    ensures g in GrantsWith(rows, effect) <==> exists row :: row in rows && row.effect == Some(effect) && Names(row, g)
  {
    GrantsWithAreExact(rows, effect);
    forall row ensures RowGrant(row, effect) == Some(g) <==> row.effect == Some(effect) && Names(row, g) {
    }
  }

  method LoadActor(
    userId: Uuid, principalType: PrincipalType, isRoot: bool, rows: seq<GrantRow>, departmentIds: seq<Uuid>)
    returns (actor: ActorContext)
    ensures actor == ActorContext(userId, principalType, isRoot, departmentIds, GrantsWith(rows, Allow), GrantsWith(rows, Deny))
    ensures AllCoherent(actor)
  {
    var allows: seq<Grant>, denies: seq<Grant> := [], [];
    for i := 0 to |rows|
      invariant allows == GrantsWith(rows[..i], Allow) && denies == GrantsWith(rows[..i], Deny)
    {
      assert rows[..i + 1][..i] == rows[..i];
      var row := rows[i];
      if row.scopeType.None? {
        continue;
      }
      var scope;
      if row.scopeType.value.Resource? {
        if row.resourceType.None? || row.resourceId.None? {
          continue;
        }
        scope := Scope(Resource, row.resourceType, row.resourceId);
      } else {
        scope := Simple(row.scopeType.value);
      }
      match row.effect
      case Some(Deny) => denies := denies + [Grant(row.code, scope)];
      case Some(Allow) => allows := allows + [Grant(row.code, scope)];
      case None =>
    }
    assert rows[..|rows|] == rows;
    GrantsWithAreExact(rows, Allow);
    GrantsWithAreExact(rows, Deny);
    actor := ActorContext(userId, principalType, isRoot, departmentIds, allows, denies);
  }
}
