# Verification model of the backend's authority, audit and session rules

Dafny models of the parts of the backend whose correctness is more than one function
deep, with proofs about every input, every state or every run.

- **Audit hash chain** (`Bytes`, `CanonicalJson`, `AuditChain`, `AuditLog`,
  `AuditTiling`). The bytes an entry is authenticated over and what a reader finds in them,
  the verifier's loop, appending, the command and the endpoint that verify, and windows that tile the log. The
  MAC is any function to 32 bytes. What keeps an adversary out is the hypothesis
  `Unforged`: a tag in the table that matches when the verifier recomputes it was computed
  by an append over those bytes. It says nothing about bytes that are not in the table, and
  the untouched history meets it for every MAC (`AuditLog.UntouchedIsUnforged`).
- **Authorization** (`Authorization`, `AuthorizationSteps`, `AuthorizationRequests`,
  `AssignmentRace`). Scopes and their order, the evaluator, the delegation guard, loading an actor, and the
  seven operations that change roles, assignments and overrides as steps over the tables,
  and role assignments with edits between their unlocked read and their insert.
  The permission catalogue is a parameter, so the results hold for every catalogue.
- **Listings** (`Sql`, `ClientListing`, `DepartmentListing`, `ListingPages`). The filters
  of the client and department listings, with SQL's three-valued logic, against the object
  decision, and their pages.
- **Pagination** (`Cursors`, `Pagination`, `RoleListing`). The cursor's text, one page, a
  walk over pages of a table that changes between requests, and the role listing, whose
  boundary is read again.
- **Sessions** (`Sessions`, `SessionRuns`, `SessionLocks`). Lifetimes, refresh rotation
  with reuse detection, the cap, and refreshes that interleave under row locks.
- **Second factor** (`Totp`, `Mfa`, `MfaOverlap`). Verification of one-time codes, factors
  and recovery codes, and regenerations, activations and disablings that overlap.
- **Bootstrap** (`Bootstrap`). Creating the owner once, with overlapping attempts.

The functions named in a contract below (`Evaluate`, `Apply`, `FinishRefresh`, ...) are the
model of the cited code; the classes update tables statement by statement and are proved
to reach the state those functions give.

What the proofs show beyond the documentation:

- The claim at `backend/src/modules/audit/chain.rs:5-8` needs an honest head record, which
  carries no tag: dropping the last rows and rewinding or removing the head is not seen by
  the command (`AuditLog.TamperEvidence`, `AuditLog.RewoundHeadHidesTruncation`).
- An untouched chain is reported as mismatched for a window that starts past its head
  (`AuditLog.UntouchedWindowIsIntact`), so also by the window after one that the log
  exactly fills (`AuditTiling.WindowAfterFullOneMismatches`).
- DEPARTMENT and ASSIGNED derive SELF without reaching the grantee's own record
  (`Authorization.DerivableIsReach`).
- A role edit between the read and the insert of an assignment reaches the subject although
  the assigner was not checked against it, and its mandate of a second factor is missed; no
  escalation over the run follows (`AssignmentRace.EditInBetweenReachesSubject`,
  `AssignmentRace.InsertKeepsMandateExactly`, `AssignmentRace.NoEscalationInRaces`).
- Editing a role does not mandate a second factor for its holders
  (`AuthorizationSteps.MandateIsKeptUnlessRoleReplaced`).
- The comment at `backend/src/modules/authorization/service.rs:279-281` says a database
  check forbids an object on a scope other than RESOURCE; the check at
  `backend/migrations/0003_authorization.sql` lets half an object through, which the loader
  would read as the plain scope (`Authorization.ScopeReadings`). No operation here stores
  such a row (`AuthorizationSteps.EnvelopeIsKept`).
- The membership used by a department's object decision and the one used by the listing
  differ for archived departments (`DepartmentListing.DecisionsDifferExactly`).
- The comment at `backend/src/modules/authorization/repo.rs:106-110` says the role listing
  cannot skip or repeat a row. It does when the boundary role is deleted or renamed between
  pages, and the exact condition is `RoleListing.BoundaryMustStay` and, for the roles in the
  table, `RoleListing.FilterFitsTable` (`RoleListing.DeletionLosesRoles`,
  `RoleListing.RenamingLosesRole`).
- The cap can be exceeded in two ways and no other (`SessionRuns.CapHoldsExactly`). A refresh
  takes its time before its locks, so it can bring an idled-out session back
  (`SessionRuns.RevivalIsLateRotation`, `SessionRuns.LateRotationBreaksCap`). A login counts
  and picks what to evict without a lock, so two that overlap can each take the last place
  (`SessionRuns.OverlappingLoginsExactly`).
- Regenerating recovery codes and disabling a factor go by flags loaded with the request
  (`Mfa.RequestsKeepInv`, `Mfa.MandatedStaysEnrolledUnlessStale`), and two regenerations at
  the same time leave both batches live (`MfaOverlap.OverlappingRegenerationsLeaveTwenty`).
- Disabling a factor and enrolling again at the same time can leave an active factor on an
  account that does not count as enrolled (`MfaOverlap.EnrolmentDuringDisabling`).

Check everything with `dafny verify dfyconfig.toml`.

## Model

| member | source | states |
|---|---|---|
| `CanonicalJson.CanonicalTextIsExact` | backend/src/modules/audit/chain.rs:102-131 | Two documents have the same canonical text exactly if they are the same up to the order of object keys at any depth |
| `CanonicalJson.NormalIsExact` | backend/src/modules/audit/chain.rs:110-124 | Sorting the keys at every depth gives one representative for all documents that differ only in key order, and different ones otherwise |
| `CanonicalJson.CanonicalTextPrints` | backend/src/modules/audit/chain.rs:108-130 | Sorting already rendered members prints the same bytes as printing the sorted document front to back |
| `CanonicalJson.CanonicalTextIsJson` | backend/src/modules/audit/chain.rs:108-131 | A JSON reader defined apart from the printer, escapes and digits included, reads the canonical text as the document with its keys sorted |
| `CanonicalJson.PrintIsRead` | backend/src/modules/audit/chain.rs:108-130 | A printed value in front of a delimiter is read back as that value, with what follows it |
| `CanonicalJson.NormalKeysRise` | backend/src/modules/audit/chain.rs:111-112 | In the canonical document the keys of every object rise, at every depth |
| `CanonicalJson.BeforeIsLexicographic` | backend/src/modules/audit/chain.rs:112 | Keys are compared byte by byte: the first difference decides, and a proper prefix comes first |
| `CanonicalJson.PrintIsDecodable` | backend/src/modules/audit/chain.rs:108-130 | A printed value followed by a delimiter determines the value and what follows |
| `AuditChain.Buffer.PushField` | backend/src/modules/audit/chain.rs:92-100 | Appends a length and the bytes, or the sentinel for an absent field, in front of whatever is pushed next |
| `AuditChain.BuildCanonicalBytes` | backend/src/modules/audit/chain.rs:147-194 | The pushes build exactly the bytes of the layout the version selects |
| `AuditChain.CanonicalBytesAreRead` | backend/src/modules/audit/chain.rs:147-194 | A reader of length-prefixed fields, defined apart from the pushes, finds in the bytes the previous tag and every covered column, each in its place of the 13 or 15, integers by their value and the metadata as JSON |
| `AuditChain.FieldsAreRead` | backend/src/modules/audit/chain.rs:92-100 | Pushed fields are read back one by one, absent and empty ones apart |
| `AuditChain.FieldIsDecodable` | backend/src/modules/audit/chain.rs:86-100 | An encoded field is determined by any text that begins with it, and absent differs from empty |
| `AuditChain.FieldsAreDecodable` | backend/src/modules/audit/chain.rs:86-100 | A list of encoded fields is determined by its bytes: content cannot be shifted across field boundaries |
| `AuditChain.CanonicalBytesIsExact` | backend/src/modules/audit/chain.rs:133-194 | The bytes of two entries agree exactly if the previous tags and every covered column do, across both layouts |
| `AuditChain.ComputeEntryHash` | backend/src/modules/audit/chain.rs:197-211 | The tag of an entry is the MAC of its canonical bytes |
| `AuditChain.Verify` | backend/src/modules/audit/chain.rs:253-302 | The loop reports the first fault in the order of its checks, or Intact after the last row |
| `AuditChain.VerifyRunIsExact` | backend/src/modules/audit/chain.rs:253-302 | Intact means that every row is free of faults; anything else is the fault of the first faulty row |
| `AuditChain.OutcomesAreExact` | backend/src/modules/audit/chain.rs:253-302 | Each outcome and when it is given, in terms of the columns: the rows before are numbered, linked and tagged, and of the row named the number is wrong (MissingSequence), or else the recorded tag (BrokenLink), or else its own (HashMismatch) |
| `AuditChain.VerifyRunComposes` | backend/src/modules/audit/chain.rs:253-302 | Verifying a concatenation is verifying the parts, the second anchored at the last tag and number of the first |
| `AuditLog.Store.Append` | backend/src/modules/audit/mod.rs:330-418 | Adds the tagged row after the head and moves the head to it; at the last number nothing is written |
| `AuditLog.AppendKeepsConsistent` | backend/src/modules/audit/mod.rs:330-431 | An append keeps the rows linked from number 1 with the head at the last row, and times at whole microseconds |
| `AuditLog.AppendedEventsAreRecorded` | backend/src/modules/audit/mod.rs:330-431 | The log holds what was there and then every event, field by field, under consecutive numbers, the time less than a microsecond nearer to zero; once the numbers have run out nothing changes |
| `AuditLog.AppendedLogVerifies` | backend/src/modules/audit/mod.rs:330-431 | After any appends behind a log of any layout versions, the rows as read back verify Intact against the head |
| `AuditLog.CommandReportsExactly` | backend/src/cli.rs:162-190 | The command reports what is wrong with the rows; if nothing is, the head and the last number if they differ; and Intact otherwise |
| `AuditLog.TamperEvidence` | backend/src/cli.rs:106-190 | For every table whose recomputed tags are not forged and every head: the command says Intact exactly if the rows are a beginning of the appended history and the head counts them |
| `AuditLog.UntouchedIsUnforged` | backend/src/modules/audit/chain.rs:10-13 | Every beginning of the appended history meets the hypothesis on tags, whatever the MAC |
| `AuditLog.HonestHeadDetectsEverything` | backend/src/modules/audit/chain.rs:3-13 | With the head as the last append left it, Intact means the rows are the appended history on all covered columns |
| `AuditLog.RewoundHeadHidesTruncation` | backend/src/cli.rs:174-188 | The head carries no tag: dropping the last rows and rewinding or removing the head goes unnoticed |
| `AuditLog.VerifiedRowIsHonest` | backend/src/modules/audit/chain.rs:263-293 | A row that verifies after honest ones is the honest row at that place |
| `AuditLog.ResolveVerifyWindow` | backend/src/modules/audit/service.rs:337-390 | A window starts at 1 or later and has between 1 and 100000 entries |
| `AuditLog.ResolveIsExact` | backend/src/modules/audit/service.rs:337-390 | Which windows are refused, what one that is asked for becomes, and that by default it holds exactly the last 10000 numbers up to the head, or as many as asked for |
| `AuditLog.WindowIsQuery` | backend/src/modules/audit/repo.rs:245-256 | The rows of a window are those from its first number on, in order, the lowest first and no more than its limit |
| `AuditLog.AnchorIsPredecessor` | backend/src/modules/audit/repo.rs:231-243 | A window is anchored at the last row before it |
| `AuditLog.FirstWindowHasNoPredecessor` | backend/src/modules/audit/service.rs:424-428 | Without a row before it a window is anchored at number 1, with no tag before |
| `AuditLog.WindowOutcomeIsExact` | backend/src/modules/audit/service.rs:421-466 | A window reports what is wrong with its rows, and HEAD_MISMATCH exactly if they are good, fewer than asked for, and the head differs in number or tag |
| `AuditLog.DivergenceIsExact` | backend/src/modules/audit/service.rs:466-512 | The report names the number of the faulty row, or the one missing there, or the last number read if the head is elsewhere, and the range it read |
| `AuditLog.DefaultWindowReachesHead` | backend/src/modules/audit/service.rs:337-466 | In the default window, Intact means that the rows read reach the head |
| `AuditLog.UntouchedWindowIsIntact` | backend/src/modules/audit/service.rs:421-466 | An untouched log is Intact from every start up to its head, and from later starts only if it is empty |
| `AuditLog.ReportedCountIsExact` | backend/src/modules/audit/service.rs:468-490 | The reported count is the number of entries before the first fault, also for a gap |
| `AuditTiling.TilesAreTheWhole` | backend/src/modules/audit/service.rs:421-466 | Windows that start where the last one ended, up to a short one, are all INTACT exactly if the log from number 1 on is intact as a whole and its head describes its last row |
| `AuditTiling.WindowAfterFullOneMismatches` | backend/src/modules/audit/service.rs:427-466 | A log that exactly fills its last window is reported as HEAD_MISMATCH by the window after it |
| `Authorization.DerivableIsPartialOrder` | backend/src/modules/authorization/delegation.rs:25-59 | Derivation is reflexive on coherent scopes, transitive and antisymmetric, and DEPARTMENT and ASSIGNED are incomparable |
| `Authorization.DerivableIsReach` | backend/src/modules/authorization/delegation.rs:32-59 | A scope may be handed out exactly if it reaches no further for any actor and target, or is SELF handed out from DEPARTMENT or ASSIGNED |
| `Authorization.EvaluateInOrder` | backend/src/modules/authorization/evaluator.rs:22-72 | The loops give the decision, with the scope type of the first allow that reaches the target |
| `Authorization.EvaluateAllowsExactly` | backend/src/modules/authorization/evaluator.rs:7-72 | Allowed exactly for the owner, or inside the envelope with no covering denial and some covering allow, in any order of grants |
| `Authorization.DecisionsAreExact` | backend/src/modules/authorization/evaluator.rs:22-72 | Each of the seven decisions and when it is taken: the envelope before denials, denials before allows, the first allow that reaches the target by its scope type, and out of scope apart from no grant |
| `Authorization.EvaluateIsMonotone` | backend/src/modules/authorization/evaluator.rs:13-14 | More allows never refuse what was allowed, and fewer denials neither: another role does not undo a denial |
| `Authorization.CollectionNeedsGlobal` | backend/src/modules/authorization/evaluator.rs:74-145 | Being allowed the collection is the same as effectively holding GLOBAL |
| `Authorization.AccessNeedsEffectiveScope` | backend/src/modules/authorization/evaluator.rs:113-155 | Whoever may act on anything holds an effective scope that reaches it |
| `Authorization.Dedup` | backend/src/modules/authorization/evaluator.rs:136-144 | Removes equal neighbours and nothing else: the same scopes remain |
| `Authorization.EachGrantIsChecked` | backend/src/modules/authorization/delegation.rs:165-198 | A role may be assigned exactly if each of its permissions may be granted |
| `Authorization.GrantRefusalsAreExact` | backend/src/modules/authorization/delegation.rs:74-144 | Each refusal of a grant and when it is given, the protection of the owner first, then self-modification, the catalogue, the envelope and the scope |
| `Authorization.AuthorityRefusals` | backend/src/modules/authorization/delegation.rs:122-144 | The second factor is asked for before the permission is found not held, and that before it is found held but not derivable |
| `Authorization.ContentRefusalsAreExact` | backend/src/modules/authorization/delegation.rs:219-254 | The same for a permission put into a role |
| `Authorization.RoleRefusalsAreExact` | backend/src/modules/authorization/delegation.rs:165-198 | A role is refused as a whole for the owner, for oneself and for another type, and otherwise by its permissions |
| `Authorization.FirstRefusalDecides` | backend/src/modules/authorization/delegation.rs:187-196 | The first permission of a role that is refused gives the answer |
| `Authorization.AuthoringIsGranting` | backend/src/modules/authorization/delegation.rs:200-256 | Authoring contents is allowed exactly if granting them one by one would be |
| `Authorization.TwoHopsAreOne` | backend/src/modules/authorization/delegation.rs:128-144 | Whatever a second actor hands out, the first could have, or it derives from a scope of the second that the first could not have given |
| `Authorization.PassedOnIsGranted` | backend/src/modules/authorization/delegation.rs:128-144 | What derives from a scope an actor may hand out, the actor may hand out itself |
| `Authorization.LoadActor` | backend/src/modules/authentication/principal.rs:163-274 | The loop gives the readable rows as allows and denials, all with coherent scopes |
| `Authorization.GrantsWithAreExact` | backend/src/modules/authentication/principal.rs:194-227 | A grant is held exactly if a readable row gives it, and is coherent |
| `Authorization.LoadedRowsAreExact` | backend/src/modules/authentication/principal.rs:194-227 | Rows with ALLOW become allows and rows with DENY denials, each with its own code and scope, and with the object only if that is RESOURCE |
| `Authorization.ScopeReadings` | backend/src/modules/authorization/service.rs:255-295 | The loader and the delegation path read a coherent row alike; where delegation stops, the loader still reads the plain scope exactly if the row carries some of an object on a scope other than RESOURCE |
| `Authorization.EffectiveReach` | backend/src/modules/authorization/evaluator.rs:118-145 | Effective scopes reach a target exactly if an allow in the envelope does and GLOBAL is not denied |
| `AuthorizationSteps.ValidateInOrder` | backend/src/modules/authorization/service.rs:315-337 | The loop over the requested permissions stops at the first refusal or takes them all |
| `AuthorizationSteps.ValidateItemsIsExact` | backend/src/modules/authorization/service.rs:315-337 | Accepted exactly if every permission is known, no scope is RESOURCE and none comes twice |
| `AuthorizationSteps.DecideIsChecked` | backend/src/modules/authorization/service.rs:581-1625 | Whatever actor asks, no change is decided on without the envelope, ownership, self-modification, system-role and delegation checks it needs |
| `AuthorizationSteps.Store.BumpEachHolder` | backend/src/modules/authorization/service.rs:825-831 | Every holder of the role gets one higher security version, nobody else |
| `AuthorizationSteps.Store.InsertRolePermissions` | backend/src/modules/authorization/service.rs:650-659 | The inserts leave the role with exactly the requested contents |
| `AuthorizationSteps.Store.ReplaceRole` | backend/src/modules/authorization/service.rs:787-831 | Version, contents and the holders' security versions change together |
| `AuthorizationSteps.Store.Commit` | backend/src/modules/authorization/repo.rs:212-530 | The statements of each change bring the tables to its specified state |
| `AuthorizationSteps.Store.Handle` | backend/src/modules/authorization/service.rs:581-1625 | A request is performed, or refused for the reason decided on without any change |
| `AuthorizationSteps.StepGrantsOnlyDerivable` | backend/src/modules/authorization/delegation.rs:74-256 | Whatever anyone newly holds after a step derives from what its actor effectively held |
| `AuthorizationSteps.NoEscalation` | backend/src/modules/authorization/delegation.rs:1-16 | In every run without a step of the owner, every allow derives from one somebody held at the start, even with stale actors |
| `AuthorizationSteps.OwnStepDoesNotEscalate` | backend/src/modules/authorization/service.rs:689-847 | No step gives its own actor an allow that does not derive from one it held when loaded; a dangerous one needs a recent second factor |
| `AuthorizationSteps.DenialsAreLiftedByHolders` | backend/src/modules/authorization/service.rs:1571-1602 | A denial is lifted only by someone else who could have granted what it denies |
| `AuthorizationSteps.ApplyKeepsSound` | backend/src/modules/authorization/delegation.rs:165-256 | Every request of any actor keeps roles, assignments and overrides inside their envelopes, the owner without grants, and system roles as they are |
| `AuthorizationSteps.EnvelopeIsKept` | backend/src/modules/authorization/service.rs:581-1625 | The same over every run, the owner's steps included |
| `AuthorizationSteps.HeldWithinEnvelope` | backend/src/modules/authorization/domain.rs:50-73 | In every reachable state nobody holds a permission outside the envelope of their type, and the owner holds no grant at all |
| `AuthorizationSteps.ChangedGrantsRaiseVersion` | backend/src/app.rs:167-184 | A request that changes the stored grants of a user raises that user's security version, and none lowers it |
| `AuthorizationSteps.SameVersionSameGrants` | backend/src/app.rs:167-184 | Over every run: while a user's security version is the same, so are the stored grants |
| `AuthorizationSteps.SameStoredIsSameRows` | backend/src/modules/authentication/principal.rs:169-192 | At one time the same stored grants are the same rows for the loader |
| `AuthorizationSteps.MandateIsKeptUnlessRoleReplaced` | backend/src/modules/authorization/service.rs:1002-1037 | Dangerous authority mandates a second factor after every change, except exactly when a role with an unmandated holder is given dangerous contents |
| `AuthorizationRequests.DecideIsExact` | backend/src/modules/authorization/service.rs:581-1625 | A request is performed exactly if it is permitted: allowed by the evaluator, with a second factor where one is due, by an actor who may hand out everything concerned, on the right subject and version |
| `AuthorizationRequests.DoorRefusalsAreExact` | backend/src/app.rs:59-110 | Without the endpoint's permission a client is answered NotFound and anyone else PermissionDenied; with it but without a second factor that is due, StepUpRequired |
| `AuthorizationRequests.ClosedDoorShowsNothing` | backend/src/modules/authorization/service.rs:706-742 | Who lacks permission or factor is answered the same whatever the tables hold, but for whether the person asked about exists |
| `AuthorizationRequests.ObjectRefusalsAreExact` | backend/src/modules/authorization/service.rs:744-780 | Past that, what is not there is NotFound, a built-in role SystemRole, and the owner protected before an override is looked up |
| `AuthorizationRequests.RoleConflictsAreExact` | backend/src/modules/authorization/service.rs:637-923 | VersionConflict, RoleInUse and AlreadyExists are answered exactly if everything else about the request is in order |
| `AuthorizationRequests.AssignmentConflictsAreExact` | backend/src/modules/authorization/service.rs:1138-1145 | An archived person and a role already held are reported exactly if the assignment is permitted otherwise, in that order |
| `AuthorizationRequests.OverrideConflictsAreExact` | backend/src/modules/authorization/service.rs:1438-1455 | The same for an override to an archived person and one that is there already |
| `AuthorizationRequests.ContentsAreAccepted` | backend/src/modules/authorization/service.rs:315-337 | Contents are accepted exactly up to 100 permissions, each known and at a scope a role can have, none twice |
| `AuthorizationRequests.FirstItemDecides` | backend/src/modules/authorization/service.rs:318-335 | The first item that is unknown, at RESOURCE scope or there already decides the refusal |
| `AuthorizationRequests.NothingIsStoredTwice` | backend/migrations/0003_authorization.sql:40-155 | In every state of every run no two roles share a code and nobody has one override twice |
| `AuthorizationRequests.AuthoringIsExact` | backend/src/modules/authorization/delegation.rs:204-256 | Contents may be authored exactly if the role is custom and each permission fits its type and may be handed out |
| `AuthorizationRequests.AssignmentIsExact` | backend/src/modules/authorization/service.rs:1088-1136 | A role may be given or taken exactly if the person is another one of its type and each permission may be granted to them |
| `AuthorizationRequests.PermittedTakesEffect` | backend/src/modules/authorization/service.rs:581-1625 | A permitted request gives or takes exactly what it names: what anyone holds by other roles and overrides, every other row, the ownership and everyone's versions and mandates beyond it stay; one that is not permitted changes nothing |
| `AuthorizationRequests.SecondEditIsRefused` | backend/src/modules/authorization/repo.rs:150-261 | Of two edits from the same version of a role only the first is performed, whatever happens between |
| `AssignmentRace.ReadThenInsertIsAssign` | backend/src/modules/authorization/service.rs:1088-1161 | With nothing in between, reading and inserting are the request |
| `AssignmentRace.InsertedGainsWereRead` | backend/src/modules/authorization/service.rs:1119-1154 | The assigner could have handed out everything the subject gains exactly if it could have handed out whatever an edit in between put into the role |
| `AssignmentRace.EditInBetweenReachesSubject` | backend/src/modules/authorization/service.rs:1119-1154 | A role edit between the unlocked read and the insert gives the subject what the assigner could not hand out |
| `AssignmentRace.AssignerGivesWhatItLacks` | backend/src/modules/authorization/service.rs:1119-1154 | An instance: an actor who may only assign gives a permission it does not hold |
| `AssignmentRace.NoEscalationInRaces` | backend/src/modules/authorization/delegation.rs:1-16 | Even in runs with such edits, without a step of the owner every allow derives from one held at the start |
| `AssignmentRace.EnvelopeInRaces` | backend/src/modules/authorization/delegation.rs:165-256 | The envelope, the owner without grants and the system roles survive such runs, whoever acts |
| `AssignmentRace.SameVersionSameGrantsInRaces` | backend/src/app.rs:167-184 | The security version stays a sound key over such runs |
| `AssignmentRace.InsertKeepsMandateExactly` | backend/src/modules/authorization/service.rs:1157-1161 | The insert keeps the mandate of a second factor exactly unless an edit in between made the role dangerous and the subject is not mandated otherwise |
| `Sql.ArrayComparisons` | backend/src/modules/clients/repo.rs:144-165 | = ANY and <> ALL of an array are membership and its negation, never unknown for a given id |
| `Sql.SortedDistinct` | backend/src/modules/clients/repo.rs:217-218 | Sorting and removing neighbours leaves the same ids in strictly ascending order |
| `Sql.FilterGoesThrough` | backend/src/modules/clients/repo.rs:292-328 | The rows that a clause keeps stay in their order, each as often as it is there |
| `ClientListing.DeniedIds` | backend/src/modules/clients/repo.rs:186-223 | The loop collects exactly the named accounts and the ASSIGNED denial |
| `ClientListing.VisibilityFor` | backend/src/modules/clients/repo.rs:226-256 | The loop gives the visibility that stands for exactly the coherent scopes |
| `ClientListing.ListingIsDecision` | backend/src/modules/clients/service.rs:237-288 | Under three-valued logic the WHERE clause keeps a row, its manager NULL or not, exactly if reading that account is allowed |
| `ClientListing.NothingIsRefused` | backend/src/modules/clients/service.rs:259-266 | A visibility of Nothing is always refused, and so is every account one by one |
| `ClientListing.List` | backend/src/modules/clients/service.rs:237-288 | The listing is refused exactly if no scope of the actor reaches any account, and otherwise returns exactly the accounts the actor may read, in table order |
| `DepartmentListing.DeniedIds` | backend/src/modules/departments/repo.rs:129-163 | The loop collects exactly the ids that narrow denials name |
| `DepartmentListing.EverythingMinusDenials` | backend/src/modules/departments/repo.rs:165-176 | Everything, without the ids denied |
| `DepartmentListing.VisibilityFor` | backend/src/modules/departments/repo.rs:217-262 | The loop gives the ids that a scope names and no denial does |
| `DepartmentListing.ListingIsDecision` | backend/src/modules/departments/service.rs:195-216 | The listing keeps a department exactly if reading it is allowed by the memberships loaded with the actor |
| `DepartmentListing.UnfilteredArmIsUnreachable` | backend/src/modules/departments/repo.rs:221-224 | The arm that skips denials is not reached from the listing |
| `DepartmentListing.NothingIsRefused` | backend/src/modules/departments/service.rs:208-214 | A visibility of Nothing is always refused, and so is every department one by one |
| `DepartmentListing.List` | backend/src/modules/departments/service.rs:179-232 | The listing is refused exactly if no department is readable, and otherwise returns exactly the readable departments, in table order |
| `DepartmentListing.DecisionsDifferExactly` | backend/src/modules/departments/service.rs:234-243 | Listing and object decision differ exactly if the two membership facts do and an ASSIGNED grant or denial decides |
| `DepartmentListing.ArchivedDepartmentDiffers` | backend/src/modules/authentication/principal.rs:229-243 | A member of an archived department may read it with ASSIGNED and does not see it listed |
| `Cursors.Base64IsBijective` | backend/src/shared/pagination.rs:39-58 | A text decodes to bytes exactly if it is their encoding |
| `Cursors.CursorCodecIsBijective` | backend/src/shared/pagination.rs:39-74 | A text is accepted as a cursor exactly if it is that cursor's encoding |
| `Cursors.CursorIsNumber` | backend/src/shared/pagination.rs:39-44 | The 32 letters of a cursor are the base-64 digits of its time as two's complement followed by its id |
| `Cursors.SextetsAreNumber` | backend/src/shared/pagination.rs:43 | Whole groups of three bytes are the same number in four base-64 digits |
| `Cursors.SymbolIsOfAlphabet` | backend/src/shared/pagination.rs:43 | Digits are written in the URL-safe alphabet, in its order |
| `Pagination.Resolve` | backend/src/shared/pagination.rs:123-205 | A resolved request has a limit up to the maximum, not 0 unless the maximum is, and sorts by one of the caller's columns |
| `Pagination.ResolveIsExact` | backend/src/shared/pagination.rs:123-205 | What each parameter resolves to, by default 25 rows, the default column and descending; the first entry under a sort name; the cursor whose text it is; and which of several bad parameters is reported |
| `Pagination.LimitsAreNumerals` | backend/src/shared/pagination.rs:138-140 | A limit is not a number exactly if what remains between white space, a plus sign aside, is empty, not all digits or too big |
| `Pagination.DirectionsAreOrders` | backend/src/shared/pagination.rs:77-98 | Ascending is by time and then id, and descending the reverse |
| `Pagination.Build` | backend/src/shared/pagination.rs:222-243 | The page is the first rows; it has a next cursor exactly if a row was left over |
| `Pagination.NextCursorIsLastKey` | backend/src/shared/pagination.rs:229-237 | The next cursor reads back as the key of the last row on the page |
| `Pagination.AnswersAreUnique` | backend/src/modules/audit/repo.rs:108-142 | The keyset query has one answer |
| `Pagination.NoRowTwice` | backend/src/modules/audit/repo.rs:104-142 | However the table changes between requests, no row is returned twice and the order holds across pages |
| `Pagination.PresentThroughoutIsReturned` | backend/src/modules/audit/repo.rs:104-142 | A finished walk has returned every row that was there at each request |
| `Pagination.FixedTableIsListed` | backend/src/modules/audit/repo.rs:104-142 | On a table that does not change the pages together are the whole ordered listing |
| `Pagination.WalkEnds` | backend/src/shared/pagination.rs:222-243 | Once no new rows appear, the number of pages that can follow is bounded |
| `Pagination.LimitIsRead` | backend/src/shared/pagination.rs:135-157 | A padded decimal number is taken as the limit exactly if it is from 1 up to the maximum |
| `Pagination.ListingExists` | backend/src/modules/audit/repo.rs:108-142 | Every table has its whole ordered listing |
| `RoleListing.BoundaryMustStay` | backend/src/modules/authorization/repo.rs:104-126 | The filter goes on after the last row for whatever keys there may be exactly if that role still has its sort value, or is gone with nothing that could lie past it |
| `RoleListing.FilterFitsTable` | backend/src/modules/authorization/repo.rs:119-126 | For the roles in the table it does so exactly if the boundary was not moved forward and no role lies between its new and old place, or it is gone and no role lies past it |
| `RoleListing.StableRoleWalkIsWalk` | backend/src/modules/authorization/repo.rs:104-135 | While every boundary keeps its place, a walk over the roles is an ordinary keyset walk |
| `RoleListing.DeletedBoundaryEndsWalk` | backend/src/modules/authorization/repo.rs:119-126 | After a deleted boundary the next page is empty and the walk over |
| `RoleListing.DeletionLosesRoles` | backend/src/modules/authorization/repo.rs:106-110 | A finished walk in which two roles that were there at both requests are never returned, as the boundary was deleted |
| `RoleListing.RenamingLosesRole` | backend/src/modules/authorization/repo.rs:89-110 | A finished walk in which a role that was there at both requests is never returned, as the boundary was renamed past it |
| `ListingPages.ClientPagesAreReadable` | backend/src/modules/clients/repo.rs:292-328 | A finished walk over the client listing returns in order, each once, accounts readable at some request, and every one readable at each |
| `ListingPages.ClientPagesAreListing` | backend/src/modules/clients/service.rs:237-288 | With the same actor and accounts throughout, its pages are the readable accounts in key order |
| `ListingPages.DepartmentPagesAreReadable` | backend/src/modules/departments/service.rs:195-232 | The same for departments, by the memberships loaded with each request |
| `ListingPages.DepartmentPagesAreListing` | backend/src/modules/departments/service.rs:195-232 | With the same actor and departments throughout, the pages are the readable departments in key order |
| `Sessions.OldestCount` | backend/src/modules/authentication/repo.rs:133-155 | The oldest n of a set of sessions are n, or all of them |
| `Sessions.OldestAreOlder` | backend/src/modules/authentication/repo.rs:133-155 | They come before every session that stays in the order of creation |
| `Sessions.Store.RevokeSession` | backend/src/modules/authentication/repo.rs:157-177 | Revokes a session that is not revoked, once |
| `Sessions.Store.PickEvicted` | backend/src/modules/authentication/service.rs:198-201 | A login picks the oldest live sessions, as many as its count asks for |
| `Sessions.Store.Login` | backend/src/modules/authentication/service.rs:201-274 | Then it revokes those it has picked and inserts the session and its first token, and answers with the lifetime stored; a key that is taken rolls everything back |
| `Sessions.Store.Finish` | backend/src/modules/authentication/service.rs:344-469 | Reaches the specified tables, and answers with the lifetime stored if it exchanges, with an error of its own if no generation or no id is left, and with the generic failure otherwise |
| `SessionRuns.ReachableFamilies` | backend/src/modules/authentication/service.rs:334-460 | In every reachable state a session's tokens have generations 0 to k, all but the newest used and linked to the next, and no deadline passes the ceiling |
| `SessionRuns.RefreshIsExact` | backend/src/modules/authentication/service.rs:331-469 | A refresh exchanges its token exactly if it was never used, its session is not revoked, the user is active, no deadline has passed and there is a next generation; it ends the session exactly if the token was used before, expired or not; and changes nothing otherwise |
| `SessionRuns.RotatesIsExact` | backend/src/modules/authentication/sessions.rs:143-161 | The rotations that the results over runs speak of are exactly those exchanges |
| `SessionRuns.LoginIsExact` | backend/src/modules/authentication/service.rs:180-246 | What a login stores: whose session, pending or not, every deadline under its ceiling, an unused token of generation 0; and which sessions it revokes |
| `SessionRuns.OtherStepsAreExact` | backend/src/modules/authentication/repo.rs:157-284 | Revocations end exactly the sessions named and leave tokens alone; a verified factor ends only the pending state |
| `SessionRuns.UnusedIsNewest` | backend/src/modules/authentication/sessions.rs:143-161 | Only the newest token of a family is unused |
| `SessionRuns.RunIsLater` | backend/src/modules/authentication/sessions.rs:68-83 | Ceilings never move; revocation, use, links and verification are for good |
| `SessionRuns.RotatesAtMostOnce` | backend/src/modules/authentication/repo.rs:415-431 | A token is exchanged at most once; presenting it again is reuse |
| `SessionRuns.ReuseEndsTheFamily` | backend/src/modules/authentication/service.rs:358-400 | After reuse the session stays revoked and no token of it is ever exchanged again |
| `SessionRuns.PendingEndsOnlyByVerification` | backend/src/modules/authentication/repo.rs:260-284 | A session leaves the pending state exactly by a verified factor |
| `SessionRuns.RevivalIsLateRotation` | backend/src/modules/authentication/service.rs:331-355 | A session that is over lives again exactly if a refresh whose time was taken before its idle deadline rotates after it |
| `SessionRuns.PickedAreOldest` | backend/src/modules/authentication/repo.rs:111-155 | What a login picks are the first by creation time and id of the live sessions it lists, as many as it has counted too many, and none without a cap |
| `SessionRuns.IssueEvictsOldest` | backend/src/modules/authentication/service.rs:195-214 | A login that writes in the state it has read evicts exactly the oldest sessions of the user, as many as the cap needs, and nobody else's |
| `SessionRuns.StepKeepsCapExactly` | backend/src/modules/authentication/sessions.rs:94-105 | From within a non-zero cap a step leaves the user within it exactly if it is no login whose picks leave no room for it, and no revival of a session of a user who has reached the cap |
| `SessionRuns.CapHoldsExactly` | backend/src/modules/authentication/service.rs:193-246 | In a run, with logins that overlap or not, a user is within the cap throughout exactly if no step is one of those two |
| `SessionRuns.LoginByItselfFits` | backend/src/modules/authentication/service.rs:195-214 | A login leaves room if no session of its user came to life between its queries and its writes |
| `SessionRuns.OverlappingLoginsExactly` | backend/src/modules/authentication/service.rs:193-246 | Two logins that have both picked before either writes leave the user within the cap exactly if there was room for both, and one over it otherwise |
| `SessionRuns.CapHolds` | backend/src/modules/authentication/sessions.rs:94-105 | In a run without overlapping logins in which no rotation revives a session past its idle deadline, no user ever has more live sessions than the cap |
| `SessionRuns.OnTimeRotationKeepsLive` | backend/src/modules/authentication/service.rs:331-355 | A rotation of a session that is still live is no revival, however early its time was taken |
| `SessionRuns.LateRotationBreaksCap` | backend/src/modules/authentication/service.rs:331-355 | A run of a login, its idle deadline, another login and a late rotation ends in two live sessions under a cap of one |
| `SessionLocks.MoveKeepsLocks` | backend/src/modules/authentication/repo.rs:377-413 | What an open refresh read under its locks stays true until it ends |
| `SessionLocks.InterleavingIsRun` | backend/src/modules/authentication/service.rs:334-460 | Every interleaving of locked refreshes and other transactions leads to the tables of a run of whole operations |
| `SessionLocks.InterleavedRotatesAtMostOnce` | backend/src/modules/authentication/service.rs:336-410 | Of overlapping refreshes with the same token at most one exchanges it |
| `SessionRuns.LoginOpensSession` | backend/src/modules/authentication/service.rs:216-246 | A login opens a session that is live, and a token that can be exchanged, until a deadline passes |
| `SessionRuns.HandedOutTokenWorks` | backend/src/modules/authentication/service.rs:412-447 | The token handed out by a rotation can be exchanged exactly until a deadline passes |
| `SessionRuns.RevokeUserIsExact` | backend/src/modules/authentication/repo.rs:204-230 | Revoking a user's sessions ends all but the one spared, and nobody else's |
| `Totp.Verify` | backend/src/platform/crypto/totp.rs:136-170 | The loop over the window keeps the latest matching step and compares it with the watermark |
| `Totp.CheckIsExact` | backend/src/platform/crypto/totp.rs:132-170 | Accepted exactly if the code matches a step in the window past the last one used, and then for the latest such step; a replay exactly if it matches none but used ones |
| `Totp.CodeIsGoodFor` | backend/src/platform/crypto/totp.rs:142-160 | The code of a step is good from 30 seconds before the step's own 30 until 30 after it |
| `Totp.DigitsCount` | backend/src/platform/crypto/totp.rs:142 | Only the digits presented count, in their order |
| `Mfa.RequestsKeepInv` | backend/src/modules/authentication/mfa.rs:111-641 | One live factor, enrolment in step with it, and at most ten live codes of one batch of an enrolled user are kept by every request as one transaction, except exactly by regenerating on an enrolment disabled meanwhile |
| `Mfa.RegenerateIsOkIfEnrolled` | backend/src/modules/authentication/mfa.rs:530-573 | Regenerating keeps this for its user exactly if the user is enrolled when it commits |
| `Mfa.DisableThenRegenerate` | backend/src/modules/authentication/mfa.rs:530-611 | Disabling and then regenerating from an older request leaves a user who is not enrolled with ten codes that work |
| `Mfa.MandatedStaysEnrolledUnlessStale` | backend/src/modules/authentication/mfa.rs:581-609 | A mandated user loses the factor exactly by disabling it on an older mandate flag |
| `Mfa.RequestsTakeEffect` | backend/src/modules/authentication/mfa.rs:131-641 | A request that succeeds leaves exactly the factors, enrolment and live codes that it should |
| `Mfa.RequestsAreExact` | backend/src/modules/authentication/mfa.rs:131-641 | A request that is granted changes factors, codes, enrolment and the session exactly as it says, row by row, and one that is not granted changes nothing |
| `Mfa.RequestsChangeExactly` | backend/src/modules/authentication/mfa.rs:131-641 | The tables change exactly if the request is granted: a recent second factor and the loaded flags for regenerating and disabling, the stored factor and the code presented for the others; and for a disabling if there is something to disable |
| `Mfa.StepUpIsNeeded` | backend/src/modules/authentication/mfa.rs:535-586 | Without a recent second factor nobody regenerates codes or disables a factor, whatever else holds |
| `Mfa.InvHolds` | backend/src/modules/authentication/mfa.rs:111-641 | The same over every run without such a regeneration |
| `Mfa.AcceptedStepsRise` | backend/src/modules/authentication/repo.rs:763-782 | The steps accepted for a factor rise strictly over a run |
| `Mfa.CodeIsSpentOnce` | backend/src/modules/authentication/repo.rs:841-864 | A recovery code is spent at most once |
| `Mfa.PendingEndsOnlyByProof` | backend/src/modules/authentication/mfa.rs:388-488 | A request ends the pending state exactly if it proves a factor or spends a code for that session |
| `Mfa.Store.IssueRecoveryCodes` | backend/src/modules/authentication/mfa.rs:111-125 | The loop replaces the old batch by ten new codes, or fails on a digest that is taken |
| `Mfa.Store.TotpSetup` | backend/src/modules/authentication/mfa.rs:136-219 | Refused with an active factor; otherwise the pending one is replaced |
| `Mfa.Store.TotpActivate` | backend/src/modules/authentication/mfa.rs:226-336 | A valid code activates the factor, enrols the user, verifies the session and issues codes, or all is rolled back |
| `Mfa.Store.VerifyTotp` | backend/src/modules/authentication/mfa.rs:348-450 | A valid code moves the watermark and verifies the session |
| `Mfa.Store.RecoveryVerify` | backend/src/modules/authentication/mfa.rs:458-518 | Spends a live code of the caller and reports how many remain |
| `Mfa.Store.RecoveryRegenerate` | backend/src/modules/authentication/mfa.rs:530-573 | Asks for a recent second factor first, then for enrolment as loaded, and replaces the batch if no digest is taken |
| `Mfa.Store.DisableFactor` | backend/src/modules/authentication/mfa.rs:581-641 | Asks for a recent second factor first, then refuses a mandated user, and clears factors, codes and enrolment together |
| `MfaOverlap.SeeingAllIsAtOnce` | backend/src/modules/authentication/mfa.rs:226-611 | A regeneration, activation or disabling whose statements saw every live factor and code of the user does what its request does at once |
| `MfaOverlap.MoveKeepsInvExactly` | backend/src/modules/authentication/mfa.rs:111-611 | With overlapping transactions, factors, enrolment and one batch of codes are kept by every move, except exactly by a regeneration ending after codes it did not see or without enrolment, a disabling ending after codes or an active factor it did not see, and a stale regeneration |
| `MfaOverlap.OverlapsKeepInv` | backend/src/modules/authentication/mfa.rs:226-611 | The same over every interleaving without such a move |
| `MfaOverlap.EnrolmentDuringDisabling` | backend/src/modules/authentication/mfa.rs:604-609 | A user who enrols between the factor statement and the code statement of an earlier disabling ends with an active factor, no codes, and not enrolled |
| `MfaOverlap.ActivationDuringRegeneration` | backend/src/modules/authentication/mfa.rs:107-125 | A regeneration that looked before an activation issued its codes leaves both batches live |
| `MfaOverlap.OverlappingRegenerationsLeaveTwenty` | backend/src/modules/authentication/mfa.rs:107-125 | Two regenerations that both look before either ends leave twenty live codes |
| `Bootstrap.AtMostOneOwner` | backend/src/modules/bootstrap/service.rs:112-239 | However attempts overlap and are cut off, at most one owner is committed and initialised means owned; the row lock alone is enough |
| `Bootstrap.EndedHoldsNothing` | backend/src/modules/bootstrap/service.rs:118-136 | An attempt that ended holds neither lock |
| `Bootstrap.OwnerIsForGood` | backend/src/modules/bootstrap/service.rs:190-212 | Once committed, owner and time of initialisation never change |
| `Bootstrap.NextAttemptIsNotBlocked` | backend/src/modules/bootstrap/service.rs:112-239 | After any aborted attempts the next one alone succeeds exactly if the state is there and not initialised and the id is free |
| `Bootstrap.System.CreateRoot` | backend/src/modules/bootstrap/service.rs:138-239 | Each answer and when it is given: refuses a missing or initialised state row, and otherwise inserts the owner and stamps the state together |

## Left out

- AuditLog.TamperEvidence: rests on the hypotheses that a tag in the table that matches when recomputed was honestly computed, that tags are 32 bytes and that field lengths stay below the sentinel; HMAC-SHA256 itself is not modelled.
- AuditLog.ResolveVerifyWindow: the parameters of a window arrive as integers; reading them from text is left out.
- AuditLog.UntouchedWindowIsIntact: the head, the predecessor and the rows are taken from one snapshot; the endpoint reads them with three queries.
- AuditChain.Verify: sequence numbers are unbounded, so the overflow of the next expected number after the largest one is not modelled.
- CanonicalJson.CanonicalTextIsJson: the reader takes JSON without white space and, of escaped code points, those of one byte; nothing else is printed.
- CanonicalJson.CanonicalTextIsExact: numbers are integers; floating-point metadata is not modelled, and strings are their UTF-8 bytes.
- AuditLog.Store.Append: the row lock on the head (`backend/src/platform/database/mod.rs:125-134`) makes appends one at a time; here an append is one step. The metadata builder's redaction and bounds are left out.
- `docs/adr/ADR-006-audit-integrity.md` gives the layout without version and address hint and says the command accepts a set of keys; the code has both layouts and one key, and the model follows the code.
- AuthorizationSteps.Store.Handle: each request is one step. `assign_role` reads the role without locking it; the edits that can come between are in `AssignmentRace`. Audit rows, names, descriptions and the trimming of texts are left out.
- AuthorizationSteps.Store.Handle: the order in which a role's permissions are read depends on the database's collation and only decides which refusal is reported; here it is the order of insertion.
- AuthorizationSteps.Store.Handle: whether the second factor is recent is one fact for the whole request; the code reads the clock twice.
- AuthorizationSteps.ChangedGrantsRaiseVersion: versions are unbounded integers; expiry of an override and changes in other modules do not raise a version and are not requests.
- The permission catalogue's table and its comparison with the database at startup: easy members.
- ClientListing.List: the visibility part of the listing; cursor, order and limit are joined to it in `ListingPages`. The response is left out.
- DepartmentListing.List: the same; the table is the list of department ids.
- RoleListing.BoundaryMustStay: a role's code or name counts by its place in the order of texts, which depends on the database's collation.
- Pagination.PresentThroughoutIsReturned: a row is its immutable key, and the table is the keys of the rows that match the filters at the time of the request.
- Sessions.Store.Login: configured durations beyond the representable range are refused by the code and are not modelled; token generation and digests are left out.
- Sessions.Store.Finish: the saturating branch of adding a duration falls back to a fixed instant, so deadlines are not claimed to lie after the present.
- SessionLocks.InterleavingIsRun: a refresh takes both of its row locks in one step, and the time a transaction writes is the database clock at commit; deadlocks appear as aborts.
- Totp.Verify: the code of a step is any function of the step; the computation in section 5.3 of RFC 4226 is not modelled.
- Mfa.RequestsKeepInv: each request is one step; regenerations, activations and disablings that overlap are in `MfaOverlap`. Rate limits and sealing of secrets are left out.
- MfaOverlap.MoveKeepsInvExactly: setting up a factor, verifying a code and spending one are one step each; the unique index on live factors refuses a set-up that overlaps with another enrolment. Row locks only order the transactions that are split, so some moves here would have to wait in the database.
- Bootstrap.AtMostOneOwner: the secret, rate limit, validation and hashing before the transaction, and the primary key of the ownership table as a third barrier, are left out; the proof does not need the key.
- Invitations, projects, tasks, the outbox, HTTP, logging and metrics are not part of this model.
