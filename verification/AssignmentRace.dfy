/**
 Assigning a role in two parts. The role is read and checked without a lock and the
 assignment is inserted later, so a role edit may be committed in between. The subject's
 row stays locked, which rules some of these runs out; nothing here needs that.
 */
module AssignmentRace {
  import opened Bytes
  import opened Authorization
  import opened AuthorizationSteps
  import opened AuthorizationRequests

  /** An assignment that was authorised on the contents read. */
  datatype Pending = Pending(userId: Uuid, roleId: Uuid, read: seq<RolePermission>)

  datatype World = World(db: Tables, open: map<Uuid, Pending>)

  /** The first part: the subject, the role and its contents are read and authorised. */
  predicate CanRead(cat: Catalogue, db: Tables, who: Principal, userId: Uuid, roleId: Uuid) {
    && CheckAssignment(cat, db, who, userId, roleId).None? && userId in db.users && roleId in db.roles
    && !db.users[userId].isArchived && Assignment(userId, roleId) !in db.assignments
  }

  /**
   The insert is refused by the schema without the role, for a person of another type, or
   if it is there already.
   */
  predicate CanInsert(db: Tables, p: Pending) {
    && p.userId in db.users && p.roleId in db.roles && Assignment(p.userId, p.roleId) !in db.assignments
    && db.roles[p.roleId].allowedType == db.users[p.userId].principalType
  }

  /** The second part. Whether to mandate a second factor goes by the contents read. */
  function Inserted(cat: Catalogue, db: Tables, p: Pending): Tables {
    db.(assignments := db.assignments + {Assignment(p.userId, p.roleId)},
        users := Mandated(Bumped(db.users, {p.userId}), p.userId, AnyDangerous(cat, p.read)))
  }

  // ---------------------------------------------------------------------------
  // One insert
  // ---------------------------------------------------------------------------

  /** With nothing in between the two parts are the request. */
  lemma ReadThenInsertIsAssign(cat: Catalogue, db: Tables, who: Principal, userId: Uuid, roleId: Uuid)
    ensures Decide(cat, db, who, AssignRole(userId, roleId)).Ok? <==> CanRead(cat, db, who, userId, roleId)
    ensures CanRead(cat, db, who, userId, roleId) ==>
              var p := Pending(userId, roleId, db.roles[roleId].permissions);
              CanInsert(db, p) && Inserted(cat, db, p) == Apply(cat, db, who, AssignRole(userId, roleId))
  {
    if CheckAssignment(cat, db, who, userId, roleId).None? {
      AssignmentIsChecked(cat, db, who, userId, roleId);
    }
  }

  /** What the subject gains is the contents of the role as they are now, and nobody else gains anything. */
  lemma InsertGivesCurrentContents(cat: Catalogue, db: Tables, p: Pending, u: Uuid)
    requires CanInsert(db, p)
    ensures forall r, q :: HasByRole(Inserted(cat, db, p), u, r, q) <==>
              HasByRole(db, u, r, q) || (u == p.userId && r == p.roleId && q in db.roles[r].permissions)
    ensures forall o :: HasByOverride(Inserted(cat, db, p), u, o) <==> HasByOverride(db, u, o)
  {
  }

  /**
   The assigner could have handed out everything the subject gains exactly if it could have
   handed out whatever an edit in between has put into the role.
   */
  lemma InsertedGainsWereRead(cat: Catalogue, before: Tables, db: Tables, who: Principal, p: Pending)
    requires CanRead(cat, before, who, p.userId, p.roleId) && p.read == before.roles[p.roleId].permissions
    requires CanInsert(db, p)
    ensures (forall r, q | HasByRole(Inserted(cat, db, p), p.userId, r, q) && !HasByRole(db, p.userId, r, q) ::
               Justified(cat, who, q.code, Simple(q.scopeType))) <==>
            forall q | q in db.roles[p.roleId].permissions && q !in p.read :: Justified(cat, who, q.code, Simple(q.scopeType))
  {
    AssignmentIsChecked(cat, before, who, p.userId, p.roleId);
    InsertGivesCurrentContents(cat, db, p, p.userId);
    assert forall q | q in db.roles[p.roleId].permissions ::
        HasByRole(Inserted(cat, db, p), p.userId, p.roleId, q) && !HasByRole(db, p.userId, p.roleId, q);
  }

  /**
   So one step's gains need not derive from its own actor: between the parts somebody else
   puts into the role what the assigner could not hand out, and the subject gets it.
   */
  lemma EditInBetweenReachesSubject(
    cat: Catalogue, db: Tables, assigner: Principal, editor: Principal, u: Uuid, r: Uuid, edit: Request, q: RolePermission)
    requires CanRead(cat, db, assigner, u, r) && !Justified(cat, assigner, q.code, Simple(q.scopeType))
    requires Decide(cat, db, editor, edit) == Ok(RoleReplaced(r, [q]))
    ensures var (edited, p) := (Apply(cat, db, editor, edit), Pending(u, r, db.roles[r].permissions));
            && CanInsert(edited, p) && !HasByRole(edited, u, r, q) && HasByRole(Inserted(cat, edited, p), u, r, q)
  {
    AssignmentIsChecked(cat, db, assigner, u, r);
  }

  // ---------------------------------------------------------------------------
  // An instance
  // ---------------------------------------------------------------------------

  const CATALOGUE: Catalogue := map[
    ROLES_ASSIGN := PermissionDef(InternalOnly, true),
    ROLES_UPDATE := PermissionDef(InternalOnly, false),
    "reports.read" := PermissionDef(InternalOnly, false)]

  /** Three people, one role without contents. */
  const PEOPLE: Tables := Tables(
    map[1 := Person(Internal, false, 1, false), 2 := Person(Internal, false, 1, false), 3 := Person(Internal, false, 1, false)],
    None, map[9 := Role("reporter", Internal, false, 1, [])], {}, map[], 0)

  const ASSIGNER := Principal(ActorContext(1, Internal, false, [], [Grant(ROLES_ASSIGN, Simple(Global))], []), true)

  const EDITOR := Principal(
    ActorContext(2, Internal, false, [], [Grant(ROLES_UPDATE, Simple(Global)), Grant("reports.read", Simple(Global))], []), true)

  const EDIT := UpdateRole(9, 1, Some([PermissionInput("reports.read", Some(Global))]))

  lemma HoldsGlobally(cat: Catalogue, actor: ActorContext, code: string, target: Target)
    requires !actor.isRoot && EnvelopePermits(cat, code, actor.principalType) && actor.denies == []
    requires Grant(code, Simple(Global)) in actor.allows
    ensures IsAllowed(Evaluate(cat, actor, code, target)) && CanDerive(EffectiveScopes(cat, actor, code), Simple(Global))
  {
    EvaluateAllowsExactly(cat, actor, code, target);
    assert ScopeCovers(Simple(Global), actor, target);
    assert Simple(Global) in EffectiveScopes(cat, actor, code) && Derivable(Simple(Global), Simple(Global));
  }

  lemma AssignerMayRead()
    ensures CanRead(CATALOGUE, PEOPLE, ASSIGNER, 3, 9)
  {
    HoldsGlobally(CATALOGUE, ASSIGNER.actor, ROLES_ASSIGN, Object(TargetContext(User, 3, None, false, false)));
    AssignmentIsExact(CATALOGUE, PEOPLE, ASSIGNER, 3, 9);
  }

  lemma AssignerLacks()
    ensures !Justified(CATALOGUE, ASSIGNER, "reports.read", Simple(Global))
  {
    assert ScopesFor(ASSIGNER.actor.allows, "reports.read") == [];
  }

  lemma EditIsValid()
    ensures ValidateRolePermissions(CATALOGUE, EDIT.replacement.value) == Ok([RolePermission("reports.read", Global)])
  {
    var (items, granted) := (EDIT.replacement.value, RolePermission("reports.read", Global));
    assert items[1..] == [] && items[0].code in CATALOGUE && [granted] + [] == [granted];
    assert ValidateItems(CATALOGUE, items, {}) == Ok([granted]);
  }

  lemma EditorMayEdit()
    ensures Decide(CATALOGUE, PEOPLE, EDITOR, EDIT) == Ok(RoleReplaced(9, [RolePermission("reports.read", Global)]))
  {
    EditIsValid();
    HoldsGlobally(CATALOGUE, EDITOR.actor, ROLES_UPDATE, Collection);
    HoldsGlobally(CATALOGUE, EDITOR.actor, "reports.read", Collection);
    EditIsExact(CATALOGUE, PEOPLE, EDITOR, ROLES_UPDATE, 9, Some([RolePermission("reports.read", Global)]));
  }

  /** The assigner, who may only assign, gives person 3 a permission it does not hold. */
  lemma AssignerGivesWhatItLacks()
    ensures !Justified(CATALOGUE, ASSIGNER, "reports.read", Simple(Global))
    ensures CanRead(CATALOGUE, PEOPLE, ASSIGNER, 3, 9)
    ensures var (edited, p) := (Apply(CATALOGUE, PEOPLE, EDITOR, EDIT), Pending(3, 9, []));
            CanInsert(edited, p) && HasByRole(Inserted(CATALOGUE, edited, p), 3, 9, RolePermission("reports.read", Global))
  {
    AssignerLacks();
    AssignerMayRead();
    EditorMayEdit();
    EditInBetweenReachesSubject(CATALOGUE, PEOPLE, ASSIGNER, EDITOR, 3, 9, EDIT, RolePermission("reports.read", Global));
  }

  // ---------------------------------------------------------------------------
  // Runs
  // ---------------------------------------------------------------------------

  /** An assignment is read and authorised by an actor loaded before, written, or given up. */
  ghost predicate ReadsAt(cat: Catalogue, run: seq<World>, i: nat, ownerActs: bool)
    requires i + 1 < |run|
  {
    exists tx: Uuid, who: Principal, u, r ::
      && tx !in run[i].open && LoadedBy(run, i, who.actor) && (ownerActs || !who.actor.isRoot)
      && CanRead(cat, run[i].db, who, u, r)
      && run[i + 1] == run[i].(open := run[i].open[tx := Pending(u, r, run[i].db.roles[r].permissions)])
  }

  ghost predicate InsertsAt(cat: Catalogue, run: seq<World>, i: nat)
    requires i + 1 < |run|
  {
    exists tx: Uuid ::
      && tx in run[i].open && CanInsert(run[i].db, run[i].open[tx])
      && run[i + 1] == World(Inserted(cat, run[i].db, run[i].open[tx]), run[i].open - {tx})
  }

  ghost predicate AbortsAt(run: seq<World>, i: nat)
    requires i + 1 < |run|
  {
    exists tx: Uuid :: run[i + 1] == run[i].(open := run[i].open - {tx})
  }

  /** Any other request, or a role assignment without anything in between, as one step. */
  ghost predicate RequestsAt(cat: Catalogue, run: seq<World>, i: nat, ownerActs: bool)
    requires i + 1 < |run|
  {
    exists who: Principal, request ::
      && LoadedBy(run, i, who.actor) && (ownerActs || !who.actor.isRoot)
      && run[i + 1] == run[i].(db := Apply(cat, run[i].db, who, request))
  }

  ghost predicate LoadedBy(run: seq<World>, i: nat, actor: ActorContext)
    requires i < |run|
  {
    exists j :: 0 <= j <= i && Loaded(run[j].db, actor)
  }

  ghost predicate RaceStepAt(cat: Catalogue, run: seq<World>, i: nat, ownerActs: bool)
    requires i + 1 < |run|
  {
    || (Elsewhere(run[i].db, run[i + 1].db) && run[i + 1].open == run[i].open)
    || RequestsAt(cat, run, i, ownerActs) || ReadsAt(cat, run, i, ownerActs) || InsertsAt(cat, run, i) || AbortsAt(run, i)
  }

  /** A run in which assignments are made in two parts, with nothing pending at first. */
  ghost predicate IsRaceRun(cat: Catalogue, run: seq<World>, ownerActs: bool) {
    && |run| > 0 && run[0].open == map[]
    && forall i: nat | i + 1 < |run| :: RaceStepAt(cat, run, i, ownerActs)
  }

  // ---------------------------------------------------------------------------
  // No escalation over such runs
  // ---------------------------------------------------------------------------

  /** Whatever is in the role now derives from something held at the start. */
  ghost predicate RoleDerives(base: Tables, db: Tables, r: Uuid) {
    r in db.roles ==> forall p | p in db.roles[r].permissions :: DerivesFrom(base, Grant(p.code, Simple(p.scopeType)))
  }

  /** Everything held derives from the start, and so does every role that a pending assignment is for. */
  ghost predicate WorldBounded(base: Tables, w: World) {
    Bounded(base, w.db) && forall tx | tx in w.open :: RoleDerives(base, w.db, w.open[tx].roleId)
  }

  lemma RequestKeepsRoleDerived(
    cat: Catalogue, base: Tables, loaded: Tables, db: Tables, who: Principal, request: Request, r: Uuid)
    requires Bounded(base, loaded) && Loaded(loaded, who.actor) && !who.actor.isRoot && RoleDerives(base, db, r)
    ensures RoleDerives(base, Apply(cat, db, who, request), r)
  {
    var (decided, after) := (Decide(cat, db, who, request), Apply(cat, db, who, request));
    DecideIsChecked(cat, db, who, request);
    if decided.Ok? && r in after.roles {
      forall p | p in after.roles[r].permissions ensures DerivesFrom(base, Grant(p.code, Simple(p.scopeType))) {
        if !(r in db.roles && p in db.roles[r].permissions) {
          NewContentsAreAuthored(cat, db, who, decided.value, r, p);
          JustifiedDerives(cat, base, loaded, who, p.code, Simple(p.scopeType));
        }
      }
    }
  }

  lemma NewContentsAreAuthored(cat: Catalogue, db: Tables, who: Principal, change: Change, r: Uuid, p: RolePermission)
    requires Checked(cat, db, who, change) && r in Perform(cat, db, change).roles
    requires p in Perform(cat, db, change).roles[r].permissions && !(r in db.roles && p in db.roles[r].permissions)
    ensures Justified(cat, who, p.code, Simple(p.scopeType))
  {
  }

  lemma ReadRoleDerives(cat: Catalogue, base: Tables, loaded: Tables, db: Tables, who: Principal, u: Uuid, r: Uuid)
    requires Bounded(base, loaded) && Loaded(loaded, who.actor) && !who.actor.isRoot && CanRead(cat, db, who, u, r)
    ensures RoleDerives(base, db, r)
  {
    AssignmentIsChecked(cat, db, who, u, r);
    forall p | p in db.roles[r].permissions ensures DerivesFrom(base, Grant(p.code, Simple(p.scopeType))) {
      JustifiedDerives(cat, base, loaded, who, p.code, Simple(p.scopeType));
    }
  }

  lemma InsertKeepsBounded(cat: Catalogue, base: Tables, db: Tables, p: Pending)
    requires Bounded(base, db) && CanInsert(db, p) && RoleDerives(base, db, p.roleId)
    ensures Bounded(base, Inserted(cat, db, p))
  {
    var after := Inserted(cat, db, p);
    forall u, g | Holds(after, u, Allow, g) ensures DerivesFrom(base, g) {
      InsertGivesCurrentContents(cat, db, p, u);
      var row :| IsGrantRow(after, u, row) && RowGrant(row, Allow) == Some(g);
      if r, q :| HasByRole(after, u, r, q) && row == RoleRow(q) {
        if HasByRole(db, u, r, q) { HeldBefore(db, u, row, g); }
      } else {
        HeldBefore(db, u, row, g);
      }
    }
  }

  lemma HeldBefore(db: Tables, u: Uuid, row: GrantRow, g: Grant)
    requires IsGrantRow(db, u, row) && RowGrant(row, Allow) == Some(g)
    ensures Holds(db, u, Allow, g)
  {
  }

  lemma StepKeepsBounded(cat: Catalogue, base: Tables, run: seq<World>, i: nat)
    requires IsRaceRun(cat, run, false) && i + 1 < |run| && forall j | 0 <= j <= i :: WorldBounded(base, run[j])
    ensures WorldBounded(base, run[i + 1])
  {
    assert RaceStepAt(cat, run, i, false);
    if Elsewhere(run[i].db, run[i + 1].db) && run[i + 1].open == run[i].open {
      BoundedElsewhere(base, run[i].db, run[i + 1].db);
    } else if RequestsAt(cat, run, i, false) {
      var who: Principal, request :| LoadedBy(run, i, who.actor) && !who.actor.isRoot &&
                                     run[i + 1] == run[i].(db := Apply(cat, run[i].db, who, request));
      var j :| 0 <= j <= i && Loaded(run[j].db, who.actor);
      BoundedStep(cat, base, run[j].db, run[i].db, who, request);
      forall tx | tx in run[i].open ensures RoleDerives(base, run[i + 1].db, run[i].open[tx].roleId) {
        RequestKeepsRoleDerived(cat, base, run[j].db, run[i].db, who, request, run[i].open[tx].roleId);
      }
    } else if ReadsAt(cat, run, i, false) {
      var tx: Uuid, who: Principal, u, r :|
        && tx !in run[i].open && LoadedBy(run, i, who.actor) && !who.actor.isRoot && CanRead(cat, run[i].db, who, u, r)
        && run[i + 1] == run[i].(open := run[i].open[tx := Pending(u, r, run[i].db.roles[r].permissions)]);
      var j :| 0 <= j <= i && Loaded(run[j].db, who.actor);
      ReadRoleDerives(cat, base, run[j].db, run[i].db, who, u, r);
    } else if InsertsAt(cat, run, i) {
      var tx: Uuid :| tx in run[i].open && CanInsert(run[i].db, run[i].open[tx]) &&
                      run[i + 1] == World(Inserted(cat, run[i].db, run[i].open[tx]), run[i].open - {tx});
      InsertKeepsBounded(cat, base, run[i].db, run[i].open[tx]);
    }
  }

  lemma {:induction false} RaceBoundedUpTo(cat: Catalogue, run: seq<World>, k: nat)
    requires IsRaceRun(cat, run, false) && k < |run|
    ensures forall j | 0 <= j <= k :: WorldBounded(run[0].db, run[j])
  {
    if k == 0 {
      forall u, g | Holds(run[0].db, u, Allow, g) ensures DerivesFrom(run[0].db, g) {
        DerivableIsPartialOrder(g.scope, g.scope, g.scope);
      }
    } else {
      RaceBoundedUpTo(cat, run, k - 1);
      StepKeepsBounded(cat, run[0].db, run, k - 1);
    }
  }

  /** Even so, in a run without a step of the owner every allow derives from one somebody held at the start. */
  lemma NoEscalationInRaces(cat: Catalogue, run: seq<World>, k: nat, u: Uuid, g: Grant)
    requires IsRaceRun(cat, run, false) && k < |run| && Holds(run[k].db, u, Allow, g)
    ensures exists v, s :: Holds(run[0].db, v, Allow, Grant(g.code, s)) && Derivable(s, g.scope)
  {
    RaceBoundedUpTo(cat, run, k);
    assert WorldBounded(run[0].db, run[k]);
  }

  // ---------------------------------------------------------------------------
  // The envelope over such runs
  // ---------------------------------------------------------------------------

  /** The tables are sound and nothing is pending for the owner. */
  ghost predicate WorldSound(cat: Catalogue, w: World) {
    Sound(cat, w.db) && forall tx | tx in w.open :: w.open[tx].userId in w.db.users && w.db.owner != Some(w.open[tx].userId)
  }

  lemma InsertKeepsSound(cat: Catalogue, db: Tables, p: Pending)
    requires Sound(cat, db) && CanInsert(db, p) && db.owner != Some(p.userId)
    ensures Sound(cat, Inserted(cat, db, p)) && Fixed(db, Inserted(cat, db, p))
  {
    var after := Inserted(cat, db, p);
    forall a | a in after.assignments ensures SoundAssignment(after, a) {
      assert a in db.assignments ==> SoundAssignment(db, a);
    }
    forall o | o in after.overrides ensures SoundOverride(cat, after, after.overrides[o]) {
      assert SoundOverride(cat, db, db.overrides[o]);
    }
  }

  lemma ReadIsForOther(cat: Catalogue, db: Tables, who: Principal, u: Uuid, r: Uuid)
    requires CanRead(cat, db, who, u, r)
    ensures u in db.users && db.owner != Some(u)
  {
    AssignmentIsChecked(cat, db, who, u, r);
  }

  lemma RequestKeepsWorldSound(cat: Catalogue, w: World, who: Principal, request: Request)
    requires WorldSound(cat, w)
    ensures WorldSound(cat, w.(db := Apply(cat, w.db, who, request))) && Fixed(w.db, Apply(cat, w.db, who, request))
  {
    ApplyKeepsSound(cat, w.db, who, request);
  }

  lemma ElsewhereKeepsWorldSound(cat: Catalogue, w: World, v: World)
    requires WorldSound(cat, w) && Elsewhere(w.db, v.db) && v.open == w.open
    ensures WorldSound(cat, v) && Fixed(w.db, v.db)
  {
    SoundElsewhere(cat, w.db, v.db);
  }

  lemma InsertKeepsWorldSound(cat: Catalogue, w: World, tx: Uuid)
    requires WorldSound(cat, w) && tx in w.open && CanInsert(w.db, w.open[tx])
    ensures var after := Inserted(cat, w.db, w.open[tx]);
            WorldSound(cat, World(after, w.open - {tx})) && Fixed(w.db, after)
  {
    InsertKeepsSound(cat, w.db, w.open[tx]);
  }

  lemma StepKeepsSound(cat: Catalogue, run: seq<World>, i: nat)
    requires IsRaceRun(cat, run, true) && i + 1 < |run| && WorldSound(cat, run[i])
    ensures WorldSound(cat, run[i + 1]) && Fixed(run[i].db, run[i + 1].db)
  {
    assert RaceStepAt(cat, run, i, true);
    if Elsewhere(run[i].db, run[i + 1].db) && run[i + 1].open == run[i].open {
      ElsewhereKeepsWorldSound(cat, run[i], run[i + 1]);
    } else if RequestsAt(cat, run, i, true) {
      var who: Principal, request :| run[i + 1] == run[i].(db := Apply(cat, run[i].db, who, request));
      RequestKeepsWorldSound(cat, run[i], who, request);
    } else if ReadsAt(cat, run, i, true) {
      var tx: Uuid, who: Principal, u, r :|
        && tx !in run[i].open && CanRead(cat, run[i].db, who, u, r)
        && run[i + 1] == run[i].(open := run[i].open[tx := Pending(u, r, run[i].db.roles[r].permissions)]);
      ReadIsForOther(cat, run[i].db, who, u, r);
    } else if InsertsAt(cat, run, i) {
      var tx: Uuid :| tx in run[i].open && CanInsert(run[i].db, run[i].open[tx]) &&
                      run[i + 1] == World(Inserted(cat, run[i].db, run[i].open[tx]), run[i].open - {tx});
      InsertKeepsWorldSound(cat, run[i], tx);
    }
  }

  /** The envelope, the owner's lack of grants and the system roles survive as well, whoever acts. */
  lemma {:induction false} EnvelopeInRaces(cat: Catalogue, run: seq<World>, k: nat)
    requires IsRaceRun(cat, run, true) && Sound(cat, run[0].db) && k < |run|
    ensures WorldSound(cat, run[k]) && Fixed(run[0].db, run[k].db)
  {
    if k > 0 {
      EnvelopeInRaces(cat, run, k - 1);
      StepKeepsSound(cat, run, k - 1);
      FixedIsTransitive(run[0].db, run[k - 1].db, run[k].db);
    }
  }

  /** The insert raises the version of the subject and changes the stored grants of nobody else. */
  lemma InsertRaisesVersion(cat: Catalogue, db: Tables, p: Pending, u: Uuid)
    requires CanInsert(db, p) && u in db.users
    ensures var after := Inserted(cat, db, p);
            && u in after.users && after.users[u].securityVersion >= db.users[u].securityVersion
            && (u == p.userId ==> after.users[u].securityVersion > db.users[u].securityVersion)
            && (u != p.userId ==> SameStored(db, after, u))
  {
  }

  lemma StepRaisesVersionInRace(cat: Catalogue, run: seq<World>, i: nat, u: Uuid)
    requires IsRaceRun(cat, run, true) && i + 1 < |run| && Sound(cat, run[i].db) && u in run[i].db.users
    ensures u in run[i + 1].db.users && run[i + 1].db.users[u].securityVersion >= run[i].db.users[u].securityVersion
    ensures run[i + 1].db.users[u].securityVersion == run[i].db.users[u].securityVersion ==>
              SameStored(run[i].db, run[i + 1].db, u)
  {
    assert RaceStepAt(cat, run, i, true);
    if Elsewhere(run[i].db, run[i + 1].db) && run[i + 1].open == run[i].open {
    } else if RequestsAt(cat, run, i, true) {
      var who: Principal, request :| run[i + 1] == run[i].(db := Apply(cat, run[i].db, who, request));
      ChangedGrantsRaiseVersion(cat, run[i].db, who, request, u);
    } else if InsertsAt(cat, run, i) {
      var tx: Uuid :| tx in run[i].open && CanInsert(run[i].db, run[i].open[tx]) &&
                      run[i + 1] == World(Inserted(cat, run[i].db, run[i].open[tx]), run[i].open - {tx});
      InsertRaisesVersion(cat, run[i].db, run[i].open[tx], u);
    }
  }

  /** The security version stays a sound key for a cache. */
  lemma {:induction false} SameVersionSameGrantsInRaces(cat: Catalogue, run: seq<World>, i: nat, j: nat, u: Uuid)
    requires IsRaceRun(cat, run, true) && Sound(cat, run[0].db) && i <= j < |run| && u in run[i].db.users
    ensures u in run[j].db.users && run[j].db.users[u].securityVersion >= run[i].db.users[u].securityVersion
    ensures run[j].db.users[u].securityVersion == run[i].db.users[u].securityVersion ==> SameStored(run[i].db, run[j].db, u)
    decreases j
  {
    if i < j {
      SameVersionSameGrantsInRaces(cat, run, i, j - 1, u);
      EnvelopeInRaces(cat, run, j - 1);
      StepRaisesVersionInRace(cat, run, j - 1, u);
      if run[j].db.users[u].securityVersion == run[i].db.users[u].securityVersion {
        SameStoredIsTransitive(run[i].db, run[j - 1].db, run[j].db, u);
      }
    }
  }

  // ---------------------------------------------------------------------------
  // The mandate goes by what was read
  // ---------------------------------------------------------------------------

  /**
   The insert keeps the mandate of a second factor exactly unless an edit in between made
   the role dangerous and the subject is not mandated otherwise.
   */
  lemma InsertKeepsMandateExactly(cat: Catalogue, db: Tables, p: Pending)
    requires CanInsert(db, p) && FactorsMandated(cat, db)
    ensures FactorsMandated(cat, Inserted(cat, db, p)) <==>
              !(AnyDangerous(cat, db.roles[p.roleId].permissions) && !AnyDangerous(cat, p.read) && !db.users[p.userId].mfaRequired)
  {
    var after := Inserted(cat, db, p);
    assert HoldsDangerous(cat, after, p.userId) <==>
        HoldsDangerous(cat, db, p.userId) || AnyDangerous(cat, db.roles[p.roleId].permissions) by {
      if AnyDangerous(cat, db.roles[p.roleId].permissions) {
        assert Assignment(p.userId, p.roleId) in after.assignments;
      }
    }
    forall u | u != p.userId ensures HoldsDangerous(cat, after, u) <==> HoldsDangerous(cat, db, u) {
    }
  }
}
