/** One-time codes: what a presented code is checked against (section 5.2 of RFC 6238). */
module Totp {
  import opened Bytes

  const STEP_SECONDS: nat := 30
  const SKEW_STEPS: int := 1
  const DIGITS: nat := 6

  /** The code of a time step under one secret. */
  type CodeAt = nat -> string

  datatype TotpVerdict = Valid(step: nat) | Invalid | Replayed

  function Digits(presented: string): string {
    if presented == "" then ""
    else if '0' <= presented[0] <= '9' then [presented[0]] + Digits(presented[1..])
    else Digits(presented[1..])
  }

  /** `step` is in the window around now and its code was presented. */
  predicate Matches(codeAt: CodeAt, presented: string, now: nat, step: nat) {
    && now / STEP_SECONDS <= step + SKEW_STEPS && step <= now / STEP_SECONDS + SKEW_STEPS
    && |Digits(presented)| == DIGITS && codeAt(step) == Digits(presented)
  }

  /**
   Valid names the latest matching step, which lies past the last one used; a code whose
   matching steps have all been passed is a replay.
   */
  method Verify(codeAt: CodeAt, presented: string, now: nat, lastUsed: Option<nat>) returns (verdict: TotpVerdict)
    ensures verdict == Check(codeAt, presented, now, lastUsed)
  {
    var cleaned := Digits(presented);
    if |cleaned| != DIGITS {
      return Invalid;
    }
    var current := now / STEP_SECONDS;
    var matched: Option<nat> := None;
    for delta := -SKEW_STEPS to SKEW_STEPS + 1
      invariant matched.Some? ==> Matches(codeAt, presented, now, matched.value) && matched.value < current + delta
      invariant forall step: nat | Matches(codeAt, presented, now, step) && step < current + delta ::
                  matched.Some? && step <= matched.value
    {
      var candidate := current + delta;
      if candidate < 0 {
        continue;
      }
      if codeAt(candidate) == cleaned {
        matched := Some(candidate);
      }
    }
    LatestIs(codeAt, presented, now, matched);
    verdict :=
      if matched.None? then Invalid
      else if lastUsed.Some? && matched.value <= lastUsed.value then Replayed
      else Valid(matched.value);
  }

  /** The latest matching step. */
  function Latest(codeAt: CodeAt, presented: string, now: nat): Option<nat> {
    var current := now / STEP_SECONDS;
    if Matches(codeAt, presented, now, current + 1) then Some(current + 1)
    else if Matches(codeAt, presented, now, current) then Some(current)
    else if current > 0 && Matches(codeAt, presented, now, current - 1) then Some(current - 1)
    else None
  }

  lemma LatestIs(codeAt: CodeAt, presented: string, now: nat, matched: Option<nat>)
    requires matched.Some? ==> Matches(codeAt, presented, now, matched.value)
    requires forall step: nat | Matches(codeAt, presented, now, step) :: matched.Some? && step <= matched.value
    ensures Latest(codeAt, presented, now) == matched
  {
  }

  function Check(codeAt: CodeAt, presented: string, now: nat, lastUsed: Option<nat>): TotpVerdict {
    match Latest(codeAt, presented, now)
    case None => Invalid
    case Some(step) => if lastUsed.Some? && step <= lastUsed.value then Replayed else Valid(step)
  }

  /** A code is accepted exactly if it matches a step in the window past the last one used. */
  lemma CheckIsExact(codeAt: CodeAt, presented: string, now: nat, lastUsed: Option<nat>)
    ensures Check(codeAt, presented, now, lastUsed).Valid? <==>
              exists step: nat :: Matches(codeAt, presented, now, step) && (lastUsed.Some? ==> step > lastUsed.value)
    ensures Check(codeAt, presented, now, lastUsed).Invalid? <==> forall step: nat :: !Matches(codeAt, presented, now, step)
    ensures var verdict := Check(codeAt, presented, now, lastUsed);
            verdict.Valid? ==>
              && Matches(codeAt, presented, now, verdict.step) && (lastUsed.Some? ==> verdict.step > lastUsed.value)
              && forall step: nat | Matches(codeAt, presented, now, step) :: step <= verdict.step
    ensures Check(codeAt, presented, now, lastUsed).Replayed? <==>
              && (exists step: nat :: Matches(codeAt, presented, now, step))
              && forall step: nat | Matches(codeAt, presented, now, step) :: lastUsed.Some? && step <= lastUsed.value
  {
  }

  /** The code of a step is good from half a minute before the step's own half minute until half a minute after it. */
  lemma CodeIsGoodFor(codeAt: CodeAt, presented: string, now: nat, step: nat)
    ensures Matches(codeAt, presented, now, step) <==>
              && |Digits(presented)| == 6 && codeAt(step) == Digits(presented)
              && 30 * step <= now + 30 && now < 30 * step + 60
  {
  }

  /** Only the digits of what was presented count, in their order: separators do not matter. */
  lemma DigitsCount(a: string, c: char, b: string)
    ensures Digits(a + ([c] + b)) == Digits(a) + (if '0' <= c <= '9' then [c] + Digits(b) else Digits(b))
  {
    DigitsJoin(a, [c] + b);
    assert ([c] + b)[1..] == b;
  }

  lemma {:induction false} DigitsJoin(a: string, b: string)
    ensures Digits(a + b) == Digits(a) + Digits(b)
  {
    if a == "" {
      assert a + b == b;
    } else {
      DigitsJoin(a[1..], b);
      assert (a + b)[1..] == a[1..] + b && (a + b)[0] == a[0];
      JoinAssociates([a[0]], Digits(a[1..]), Digits(b));
    }
  }

  lemma JoinAssociates(a: string, b: string, c: string)
    ensures a + b + c == a + (b + c)
  {
  }
}

/** Second factors, recovery codes and the sessions they complete. */
module Mfa {
  import opened Bytes
  import opened Totp
  import opened Sessions

  const RECOVERY_CODE_COUNT: nat := 10

  datatype Account = Account(mfaEnrolled: bool, mfaRequired: bool)

  datatype Status = Pending | Active | Disabled

  datatype Factor = Factor(userId: Id, status: Status, lastUsedStep: Option<nat>)

  /** A recovery code, keyed by the digest of its text. */
  datatype RecoveryCode = RecoveryCode(userId: Id, batchId: Id, consumed: bool)

  datatype Tables = Tables(
    users: map<Id, Account>, factors: map<Id, Factor>, codes: map<Id, RecoveryCode>, sessions: Db)

  /** Every factor's secret gives its codes. */
  type Secrets = Id -> CodeAt

  /** The caller as loaded for the request, which may have changed since. */
  datatype Caller = Caller(userId: Id, sessionId: Id, enrolled: bool, required: bool, stepUp: bool)

  datatype Request =
    | Setup(factorId: Id)
    | Activate(presented: string, now: nat, batchId: Id, hashes: seq<Id>)
    | VerifyCode(presented: string, now: nat)
    | VerifyRecovery(hash: Id)
    | Regenerate(batchId: Id, hashes: seq<Id>)
    | Disable

  // ---------------------------------------------------------------------------
  // Statements
  // ---------------------------------------------------------------------------

  /** The user's factors in a status; the unique index leaves at most one that is live. */
  function FactorsIn(db: Tables, user: Id, status: Status): set<Id> {
    set f | f in db.factors && db.factors[f].userId == user && db.factors[f].status == status
  }

  function DisableFactors(db: Tables, gone: set<Id>): Tables {
    db.(factors := map f | f in db.factors :: if f in gone then db.factors[f].(status := Disabled) else db.factors[f])
  }

  /** The watermark only moves up. */
  function Greatest(last: Option<nat>, step: nat): nat {
    if last.Some? && last.value > step then last.value else step
  }

  function SetEnrolled(db: Tables, user: Id, enrolled: bool): Tables {
    if user in db.users then db.(users := db.users[user := db.users[user].(mfaEnrolled := enrolled)]) else db
  }

  function ConsumeBatch(db: Tables, user: Id): Tables {
    db.(codes := map c | c in db.codes ::
          if db.codes[c].userId == user then db.codes[c].(consumed := true) else db.codes[c])
  }

  /** Digests are unique: a code that is there already, or comes twice, fails the insertion. */
  predicate AreNew(codes: map<Id, RecoveryCode>, hashes: seq<Id>) {
    && (forall i | 0 <= i < |hashes| :: hashes[i] !in codes)
    && (forall i, j | 0 <= i < j < |hashes| :: hashes[i] != hashes[j])
  }

  lemma OneMoreIsNew(codes: map<Id, RecoveryCode>, hashes: seq<Id>, n: nat)
    requires n < |hashes| && AreNew(codes, hashes[..n])
    ensures AreNew(codes, hashes[..n + 1]) <==> hashes[n] !in codes && hashes[n] !in hashes[..n]
  {
  }

  lemma PrefixIsNew(codes: map<Id, RecoveryCode>, hashes: seq<Id>, n: nat)
    requires n <= |hashes| && AreNew(codes, hashes)
    ensures AreNew(codes, hashes[..n])
  {
  }

  predicate AreFresh(db: Tables, hashes: seq<Id>) {
    |hashes| == RECOVERY_CODE_COUNT && AreNew(db.codes, hashes)
  }

  function WithCodes(codes: map<Id, RecoveryCode>, user: Id, batchId: Id, hashes: seq<Id>): map<Id, RecoveryCode> {
    codes + map h | h in hashes :: RecoveryCode(user, batchId, false)
  }

  lemma WithOneMore(codes: map<Id, RecoveryCode>, user: Id, batchId: Id, hashes: seq<Id>, h: Id)
    ensures WithCodes(codes, user, batchId, hashes + [h]) ==
              WithCodes(codes, user, batchId, hashes)[h := RecoveryCode(user, batchId, false)]
    ensures h in WithCodes(codes, user, batchId, hashes) <==> h in codes || h in hashes
  {
  }

  /** Inserting code number `n` after those before it. */
  lemma InsertStep(codes: map<Id, RecoveryCode>, user: Id, batchId: Id, hashes: seq<Id>, n: nat)
    requires n < |hashes| && AreNew(codes, hashes[..n])
    ensures var before := WithCodes(codes, user, batchId, hashes[..n]);
            && (hashes[n] !in before <==> AreNew(codes, hashes[..n + 1]))
            && WithCodes(codes, user, batchId, hashes[..n + 1]) == before[hashes[n] := RecoveryCode(user, batchId, false)]
    ensures AreNew(codes, hashes) ==> AreNew(codes, hashes[..n + 1])
  {
    WithOneMore(codes, user, batchId, hashes[..n], hashes[n]);
    OneMoreIsNew(codes, hashes, n);
    assert hashes[..n + 1] == hashes[..n] + [hashes[n]];
    if AreNew(codes, hashes) {
      PrefixIsNew(codes, hashes, n + 1);
    }
  }

  function IssueCodes(db: Tables, user: Id, batchId: Id, hashes: seq<Id>): Tables {
    var consumed := ConsumeBatch(db, user);
    consumed.(codes := WithCodes(consumed.codes, user, batchId, hashes))
  }

  function LiveCodes(db: Tables, user: Id): set<Id> {
    set c | c in db.codes && db.codes[c].userId == user && !db.codes[c].consumed
  }

  // ---------------------------------------------------------------------------
  // Operations
  // ---------------------------------------------------------------------------

  /** The one factor of a set that holds at most one. */
  function Only(factors: set<Id>): (f: Id)
    requires |factors| == 1
    ensures f in factors
  {
    OnlyOne(factors);
    var f :| f in factors;
    f
  }

  lemma OnlyOne(factors: set<Id>)
    requires |factors| == 1
    ensures exists f :: f in factors
    ensures forall f, g | f in factors && g in factors :: f == g
  {
    var f :| f in factors;
    assert factors == {f} by {
      assert |factors - {f}| == 0;
    }
  }

  /** The factor activated at a time step, the user enrolled and the session verified. */
  function Activated(db: Tables, caller: Caller, f: Id, step: nat): Tables {
    SetEnrolled(db.(factors := db.factors[f := Factor(caller.userId, Active, Some(step))],
                    sessions := MarkVerified(db.sessions, caller.sessionId)),
                caller.userId, true)
  }

  /** How the factor in the given status takes a presented code. */
  function Judge(secrets: Secrets, db: Tables, user: Id, status: Status, presented: string, now: nat): Option<TotpVerdict> {
    var factors := FactorsIn(db, user, status);
    if |factors| != 1 then None
    else Some(Check(secrets(Only(factors)), presented, now, db.factors[Only(factors)].lastUsedStep))
  }

  /** The request is carried out; otherwise it changes nothing here. */
  predicate Succeeds(secrets: Secrets, db: Tables, caller: Caller, request: Request) {
    match request
    case Setup(factorId) => FactorsIn(db, caller.userId, Active) == {} && factorId !in db.factors
    case Activate(presented, now, _, hashes) =>
      var judged := Judge(secrets, db, caller.userId, Pending, presented, now);
      judged.Some? && judged.value.Valid? && AreFresh(db, hashes)
    case VerifyCode(presented, now) =>
      var judged := Judge(secrets, db, caller.userId, Active, presented, now);
      judged.Some? && judged.value.Valid?
    case VerifyRecovery(hash) => hash in LiveCodes(db, caller.userId)
    case Regenerate(_, hashes) => caller.stepUp && caller.enrolled && AreFresh(db, hashes)
    case Disable => caller.stepUp && !caller.required
  }

  function Perform(secrets: Secrets, db: Tables, caller: Caller, request: Request): Tables
    requires Succeeds(secrets, db, caller, request)
  {
    var user := caller.userId;
    match request
    case Setup(factorId) =>
      var cleared := DisableFactors(db, FactorsIn(db, user, Pending));
      cleared.(factors := cleared.factors[factorId := Factor(user, Pending, None)])
    case Activate(presented, now, batchId, hashes) =>
      var f := Only(FactorsIn(db, user, Pending));
      var step := Judge(secrets, db, user, Pending, presented, now).value.step;
      IssueCodes(Activated(db, caller, f, step), user, batchId, hashes)
    case VerifyCode(presented, now) =>
      var f := Only(FactorsIn(db, user, Active));
      var step := Judge(secrets, db, user, Active, presented, now).value.step;
      var factor := db.factors[f];
      db.(factors := db.factors[f := factor.(lastUsedStep := Some(Greatest(factor.lastUsedStep, step)))], sessions := MarkVerified(db.sessions, caller.sessionId))
    case VerifyRecovery(hash) =>
      db.(codes := db.codes[hash := db.codes[hash].(consumed := true)], sessions := MarkVerified(db.sessions, caller.sessionId))
    case Regenerate(batchId, hashes) => IssueCodes(db, user, batchId, hashes)
    case Disable =>
      var live := FactorsIn(db, user, Pending) + FactorsIn(db, user, Active);
      SetEnrolled(ConsumeBatch(DisableFactors(db, live), user), user, false)
  }

  function Apply(secrets: Secrets, db: Tables, caller: Caller, request: Request): Tables {
    if Succeeds(secrets, db, caller, request) then Perform(secrets, db, caller, request) else db
  }

  // ---------------------------------------------------------------------------
  // What every state keeps
  // ---------------------------------------------------------------------------

  ghost predicate IsLiveFactor(db: Tables, user: Id, f: Id) {
    f in db.factors && db.factors[f].userId == user && !db.factors[f].status.Disabled?
  }

  ghost predicate OneLiveFactor(db: Tables, user: Id) {
    forall f, g | IsLiveFactor(db, user, f) && IsLiveFactor(db, user, g) :: f == g
  }

  /** Being enrolled means having an active factor. */
  ghost predicate EnrolledExactly(db: Tables, user: Id) {
    user in db.users && (db.users[user].mfaEnrolled <==> exists f :: f in FactorsIn(db, user, Active))
  }

  /** Live codes are of one batch, at most ten, and only of an enrolled user. */
  ghost predicate CodesOk(db: Tables, user: Id) {
    && |LiveCodes(db, user)| <= RECOVERY_CODE_COUNT
    && (forall c, d | c in LiveCodes(db, user) && d in LiveCodes(db, user) :: db.codes[c].batchId == db.codes[d].batchId)
    && (LiveCodes(db, user) != {} ==> user in db.users && db.users[user].mfaEnrolled)
  }

  ghost predicate UserOk(db: Tables, user: Id) {
    OneLiveFactor(db, user) && EnrolledExactly(db, user) && CodesOk(db, user)
  }

  ghost predicate Inv(db: Tables) {
    forall user | user in db.users :: UserOk(db, user)
  }

  lemma OnlyLive(db: Tables, user: Id, status: Status, f: Id)
    requires OneLiveFactor(db, user) && f in FactorsIn(db, user, status) && !status.Disabled?
    ensures FactorsIn(db, user, status) == {f} && |FactorsIn(db, user, status)| == 1
  {
    forall g | g in FactorsIn(db, user, status) ensures g == f {
      assert IsLiveFactor(db, user, g) && IsLiveFactor(db, user, f);
    }
  }

  ghost function Elements(hashes: seq<Id>): set<Id> {
    set h | h in hashes
  }

  lemma {:induction false} ElementsCount(hashes: seq<Id>)
    requires forall i, j | 0 <= i < j < |hashes| :: hashes[i] != hashes[j]
    ensures |Elements(hashes)| == |hashes|
  {
    if hashes != [] {
      var (before, last) := (hashes[..|hashes| - 1], hashes[|hashes| - 1]);
      ElementsCount(before);
      assert Elements(hashes) == Elements(before) + {last};
    }
  }

  lemma IssuedCodesAreOk(db: Tables, user: Id, batchId: Id, hashes: seq<Id>)
    requires AreFresh(db, hashes)
    ensures var after := IssueCodes(db, user, batchId, hashes);
            && LiveCodes(after, user) == Elements(hashes) && |LiveCodes(after, user)| == RECOVERY_CODE_COUNT
            && (forall c | c in LiveCodes(after, user) :: after.codes[c].batchId == batchId)
  {
    ElementsCount(hashes);
    var after := IssueCodes(db, user, batchId, hashes);
    forall c ensures c in LiveCodes(after, user) <==> c in Elements(hashes) {
    }
  }

  /** Account, factors and codes of `user` are as they were. */
  ghost predicate SameFor(before: Tables, after: Tables, user: Id) {
    && user in before.users && user in after.users && after.users[user].mfaEnrolled == before.users[user].mfaEnrolled
    && (forall f | f in before.factors && before.factors[f].userId == user :: f in after.factors && after.factors[f] == before.factors[f])
    && (forall f | f in after.factors && after.factors[f].userId == user :: f in before.factors && after.factors[f] == before.factors[f])
    && (forall c | c in before.codes && before.codes[c].userId == user :: c in after.codes && after.codes[c] == before.codes[c])
    && (forall c | c in after.codes && after.codes[c].userId == user :: c in before.codes && after.codes[c] == before.codes[c])
  }

  lemma SameIsOk(before: Tables, after: Tables, user: Id)
    requires SameFor(before, after, user) && UserOk(before, user)
    ensures UserOk(after, user)
  {
    assert LiveCodes(after, user) == LiveCodes(before, user);
    assert FactorsIn(after, user, Active) == FactorsIn(before, user, Active);
    assert forall f :: IsLiveFactor(after, user, f) <==> IsLiveFactor(before, user, f);
  }

  lemma CodesOfOthersStay(db: Tables, user: Id, batchId: Id, hashes: seq<Id>, other: Id)
    requires AreFresh(db, hashes) && other != user && other in db.users
    ensures SameFor(db, IssueCodes(db, user, batchId, hashes), other)
  {
  }

  lemma OthersStay(secrets: Secrets, db: Tables, caller: Caller, request: Request, other: Id)
    requires Succeeds(secrets, db, caller, request) && other != caller.userId && other in db.users
    ensures SameFor(db, Perform(secrets, db, caller, request), other)
  {
    if request.Activate? {
      var f := Only(FactorsIn(db, caller.userId, Pending));
      var step := Judge(secrets, db, caller.userId, Pending, request.presented, request.now).value.step;
      CodesOfOthersStay(Activated(db, caller, f, step), caller.userId, request.batchId, request.hashes, other);
    } else if request.Regenerate? {
      CodesOfOthersStay(db, caller.userId, request.batchId, request.hashes, other);
    } else {
      OthersStayWithoutIssue(secrets, db, caller, request, other);
    }
  }

  lemma OthersStayWithoutIssue(secrets: Secrets, db: Tables, caller: Caller, request: Request, other: Id)
    requires Succeeds(secrets, db, caller, request) && other != caller.userId && other in db.users
    requires request.Setup? || request.VerifyCode? || request.VerifyRecovery? || request.Disable?
    ensures SameFor(db, Perform(secrets, db, caller, request), other)
  {
  }

  lemma SetupIsOk(secrets: Secrets, db: Tables, caller: Caller, request: Request)
    requires request.Setup? && Succeeds(secrets, db, caller, request)
    requires caller.userId in db.users && UserOk(db, caller.userId)
    ensures UserOk(Perform(secrets, db, caller, request), caller.userId)
  {
    var (after, user) := (Perform(secrets, db, caller, request), caller.userId);
    assert LiveCodes(after, user) == LiveCodes(db, user);
    assert forall f | IsLiveFactor(db, user, f) :: f in FactorsIn(db, user, Pending) || f in FactorsIn(db, user, Active);
    assert forall f | IsLiveFactor(after, user, f) :: f == request.factorId;
  }

  lemma ActivateIsOk(secrets: Secrets, db: Tables, caller: Caller, request: Request)
    requires request.Activate? && Succeeds(secrets, db, caller, request)
    requires caller.userId in db.users && UserOk(db, caller.userId)
    ensures UserOk(Perform(secrets, db, caller, request), caller.userId)
  {
    var (after, user) := (Perform(secrets, db, caller, request), caller.userId);
    var f := Only(FactorsIn(db, user, Pending));
    assert forall g | IsLiveFactor(after, user, g) :: IsLiveFactor(db, user, g);
    assert f in FactorsIn(after, user, Active);
    var step := Judge(secrets, db, user, Pending, request.presented, request.now).value.step;
    IssuedCodesAreOk(Activated(db, caller, f, step), user, request.batchId, request.hashes);
  }

  lemma VerifyIsOk(secrets: Secrets, db: Tables, caller: Caller, request: Request)
    requires (request.VerifyCode? || request.VerifyRecovery?) && Succeeds(secrets, db, caller, request)
    requires caller.userId in db.users && UserOk(db, caller.userId)
    ensures UserOk(Perform(secrets, db, caller, request), caller.userId)
  {
    var (after, user) := (Perform(secrets, db, caller, request), caller.userId);
    assert forall f :: IsLiveFactor(after, user, f) <==> IsLiveFactor(db, user, f);
    assert FactorsIn(after, user, Active) == FactorsIn(db, user, Active);
    assert LiveCodes(after, user) <= LiveCodes(db, user);
    SubsetCount(LiveCodes(after, user), LiveCodes(db, user));
  }

  lemma DisableIsOk(secrets: Secrets, db: Tables, caller: Caller, request: Request)
    requires request.Disable? && Succeeds(secrets, db, caller, request)
    requires caller.userId in db.users
    ensures UserOk(Perform(secrets, db, caller, request), caller.userId)
  {
  }

  /** A regeneration is fine exactly if the user is still enrolled when it happens. */
  lemma RegenerateIsOkIfEnrolled(secrets: Secrets, db: Tables, caller: Caller, request: Request)
    requires request.Regenerate? && Succeeds(secrets, db, caller, request)
    requires caller.userId in db.users && UserOk(db, caller.userId)
    ensures UserOk(Perform(secrets, db, caller, request), caller.userId) <==> db.users[caller.userId].mfaEnrolled
  {
    var (after, user) := (Perform(secrets, db, caller, request), caller.userId);
    IssuedCodesAreOk(db, user, request.batchId, request.hashes);
    assert forall f :: IsLiveFactor(after, user, f) <==> IsLiveFactor(db, user, f);
    assert FactorsIn(after, user, Active) == FactorsIn(db, user, Active);
  }

  /** What the caller has after the request. */
  ghost predicate TakesEffect(db: Tables, after: Tables, user: Id, request: Request) {
    match request
    case Setup(f) => FactorsIn(after, user, Pending) == {f} && LiveCodes(after, user) == LiveCodes(db, user)
    case Activate(_, _, batchId, hashes) =>
      && FactorsIn(after, user, Active) != {} && FactorsIn(after, user, Pending) == {}
      && user in after.users && after.users[user].mfaEnrolled && LiveCodes(after, user) == Elements(hashes)
      && forall c | c in LiveCodes(after, user) :: after.codes[c].batchId == batchId
    case VerifyCode(_, _) =>
      FactorsIn(after, user, Active) == FactorsIn(db, user, Active) && LiveCodes(after, user) == LiveCodes(db, user)
    case VerifyRecovery(hash) => hash in LiveCodes(db, user) && LiveCodes(after, user) == LiveCodes(db, user) - {hash}
    case Regenerate(_, hashes) =>
      FactorsIn(after, user, Active) == FactorsIn(db, user, Active) && LiveCodes(after, user) == Elements(hashes)
    case Disable =>
      && FactorsIn(after, user, Active) == {} && FactorsIn(after, user, Pending) == {}
      && LiveCodes(after, user) == {} && user in after.users && !after.users[user].mfaEnrolled
  }

  lemma ActivatedIsEnrolled(db: Tables, caller: Caller, f: Id, step: nat)
    requires caller.userId in db.users && OneLiveFactor(db, caller.userId) && f in FactorsIn(db, caller.userId, Pending)
    ensures var active := Activated(db, caller, f, step);
            && FactorsIn(active, caller.userId, Active) != {} && FactorsIn(active, caller.userId, Pending) == {}
            && caller.userId in active.users && active.users[caller.userId].mfaEnrolled
            && active.codes == db.codes
  {
    var active := Activated(db, caller, f, step);
    OnlyLive(db, caller.userId, Pending, f);
    assert f in FactorsIn(active, caller.userId, Active);
    forall g ensures g !in FactorsIn(active, caller.userId, Pending) {
      assert g in FactorsIn(active, caller.userId, Pending) ==> g in FactorsIn(db, caller.userId, Pending);
    }
  }

  lemma IssueTakesEffect(db: Tables, user: Id, batchId: Id, hashes: seq<Id>)
    requires AreFresh(db, hashes)
    ensures var after := IssueCodes(db, user, batchId, hashes);
            && LiveCodes(after, user) == Elements(hashes) && after.users == db.users
            && (forall c | c in LiveCodes(after, user) :: after.codes[c].batchId == batchId)
            && (forall status :: FactorsIn(after, user, status) == FactorsIn(db, user, status))
  {
    IssuedCodesAreOk(db, user, batchId, hashes);
  }

  lemma ActivateTakesEffect(secrets: Secrets, db: Tables, caller: Caller, request: Request)
    requires request.Activate? && Succeeds(secrets, db, caller, request)
    requires caller.userId in db.users && OneLiveFactor(db, caller.userId)
    ensures TakesEffect(db, Perform(secrets, db, caller, request), caller.userId, request)
  {
    var f := Only(FactorsIn(db, caller.userId, Pending));
    var step := Judge(secrets, db, caller.userId, Pending, request.presented, request.now).value.step;
    ActivatedIsEnrolled(db, caller, f, step);
    IssueTakesEffect(Activated(db, caller, f, step), caller.userId, request.batchId, request.hashes);
  }

  lemma OthersTakeEffect(secrets: Secrets, db: Tables, caller: Caller, request: Request)
    requires !request.Activate? && !request.Regenerate? && Succeeds(secrets, db, caller, request) && caller.userId in db.users
    ensures TakesEffect(db, Perform(secrets, db, caller, request), caller.userId, request)
  {
  }

  /** A request that succeeds brings about what it says. */
  lemma RequestsTakeEffect(secrets: Secrets, db: Tables, caller: Caller, request: Request)
    requires Succeeds(secrets, db, caller, request) && caller.userId in db.users && OneLiveFactor(db, caller.userId)
    ensures TakesEffect(db, Perform(secrets, db, caller, request), caller.userId, request)
  {
    match request
    case Activate(_, _, _, _) => ActivateTakesEffect(secrets, db, caller, request);
    case Regenerate(batchId, hashes) => IssueTakesEffect(db, caller.userId, batchId, hashes);
    case _ => OthersTakeEffect(secrets, db, caller, request);
  }

  // ---------------------------------------------------------------------------
  // When a request is carried out, and everything it then changes
  // ---------------------------------------------------------------------------

  /** Ten digests, none of them twice and none in the table. */
  ghost predicate AreTenNew(db: Tables, hashes: seq<Id>) {
    && |hashes| == 10 && (forall h | h in hashes :: h !in db.codes)
    && forall i, j | 0 <= i < |hashes| && 0 <= j < |hashes| && hashes[i] == hashes[j] :: i == j
  }

  /** The code presented is that of a factor of the user in the status, for a step later than any it was good for. */
  ghost predicate ProvesFactor(secrets: Secrets, db: Tables, user: Id, status: Status, presented: string, now: nat, f: Id) {
    && f in db.factors && db.factors[f].userId == user && db.factors[f].status == status
    && exists step: nat ::
         && Matches(secrets(f), presented, now, step)
         && (db.factors[f].lastUsedStep.Some? ==> db.factors[f].lastUsedStep.value < step)
  }

  /** What each request needs. Two of them need a recent second factor. */
  ghost predicate IsGranted(secrets: Secrets, db: Tables, caller: Caller, request: Request) {
    match request
    case Setup(f) => f !in db.factors && forall g | g in db.factors && db.factors[g].userId == caller.userId :: db.factors[g].status != Active
    case Activate(presented, now, _, hashes) =>
      AreTenNew(db, hashes) && exists f :: ProvesFactor(secrets, db, caller.userId, Pending, presented, now, f)
    case VerifyCode(presented, now) => exists f :: ProvesFactor(secrets, db, caller.userId, Active, presented, now, f)
    case VerifyRecovery(hash) => hash in db.codes && db.codes[hash].userId == caller.userId && !db.codes[hash].consumed
    case Regenerate(_, hashes) => caller.stepUp && caller.enrolled && AreTenNew(db, hashes)
    case Disable => caller.stepUp && !caller.required
  }

  lemma FreshIsTenNew(db: Tables, hashes: seq<Id>)
    ensures AreFresh(db, hashes) <==> AreTenNew(db, hashes)
  {
  }

  lemma JudgedIsProved(secrets: Secrets, db: Tables, user: Id, status: Status, presented: string, now: nat)
    requires OneLiveFactor(db, user) && !status.Disabled?
    ensures var judged := Judge(secrets, db, user, status, presented, now);
            judged.Some? && judged.value.Valid? <==> exists f :: ProvesFactor(secrets, db, user, status, presented, now, f)
  {
    var factors := FactorsIn(db, user, status);
    if f :| ProvesFactor(secrets, db, user, status, presented, now, f) {
      OnlyLive(db, user, status, f);
      CheckIsExact(secrets(f), presented, now, db.factors[f].lastUsedStep);
    }
    if |factors| == 1 {
      var f := Only(factors);
      CheckIsExact(secrets(f), presented, now, db.factors[f].lastUsedStep);
      if Check(secrets(f), presented, now, db.factors[f].lastUsedStep).Valid? {
        assert ProvesFactor(secrets, db, user, status, presented, now, f);
      }
    }
  }

  lemma GrantedSucceeds(secrets: Secrets, db: Tables, caller: Caller, request: Request)
    requires OneLiveFactor(db, caller.userId)
    ensures Succeeds(secrets, db, caller, request) <==> IsGranted(secrets, db, caller, request)
  {
    match request
    case Setup(_) =>
      assert FactorsIn(db, caller.userId, Active) == {} <==>
               forall g | g in db.factors && db.factors[g].userId == caller.userId :: db.factors[g].status != Active by {
        assert forall g | g in db.factors && db.factors[g].userId == caller.userId && db.factors[g].status == Active ::
                 g in FactorsIn(db, caller.userId, Active);
      }
    case Activate(presented, now, _, hashes) =>
      FreshIsTenNew(db, hashes);
      JudgedIsProved(secrets, db, caller.userId, Pending, presented, now);
    case VerifyCode(presented, now) => JudgedIsProved(secrets, db, caller.userId, Active, presented, now);
    case Regenerate(_, hashes) => FreshIsTenNew(db, hashes);
    case _ =>
  }

  /** Something that a disabling ends. */
  ghost predicate HasSecondFactor(db: Tables, user: Id) {
    || (exists f :: IsLiveFactor(db, user, f))
    || (exists c :: c in db.codes && db.codes[c].userId == user && !db.codes[c].consumed)
    || (user in db.users && db.users[user].mfaEnrolled)
  }

  lemma DisablingChanges(db: Tables, user: Id)
    ensures var live := FactorsIn(db, user, Pending) + FactorsIn(db, user, Active);
            var after := SetEnrolled(ConsumeBatch(DisableFactors(db, live), user), user, false);
            after != db ==> HasSecondFactor(db, user)
  {
    var live := FactorsIn(db, user, Pending) + FactorsIn(db, user, Active);
    var after := SetEnrolled(ConsumeBatch(DisableFactors(db, live), user), user, false);
    if !HasSecondFactor(db, user) {
      assert forall f | f in live :: IsLiveFactor(db, user, f);
      assert after.factors == db.factors;
      assert after.codes == db.codes;
      assert after.users == db.users;
    }
  }

  lemma DisablingIsSeen(secrets: Secrets, db: Tables, caller: Caller)
    requires caller.stepUp && !caller.required && HasSecondFactor(db, caller.userId)
    ensures Apply(secrets, db, caller, Disable) != db
  {
    var after := Apply(secrets, db, caller, Disable);
    if f :| IsLiveFactor(db, caller.userId, f) {
      assert after.factors[f].status == Disabled;
    } else if c :| c in db.codes && db.codes[c].userId == caller.userId && !db.codes[c].consumed {
      assert after.codes[c].consumed;
    }
  }

  /** A request changes the tables exactly if it is granted, and a disabling only if there is something to disable. */
  lemma RequestsChangeExactly(secrets: Secrets, db: Tables, caller: Caller, request: Request)
    requires OneLiveFactor(db, caller.userId)
    ensures Apply(secrets, db, caller, request) != db <==>
              IsGranted(secrets, db, caller, request) && (request.Disable? ==> HasSecondFactor(db, caller.userId))
  {
    GrantedSucceeds(secrets, db, caller, request);
    if Succeeds(secrets, db, caller, request) {
      match request
      case Disable =>
        DisablingChanges(db, caller.userId);
        if HasSecondFactor(db, caller.userId) { DisablingIsSeen(secrets, db, caller); }
      case Setup(f) => assert f in Apply(secrets, db, caller, request).factors;
      case VerifyRecovery(hash) => assert Apply(secrets, db, caller, request).codes[hash].consumed;
      case VerifyCode(presented, now) =>
        var f := Only(FactorsIn(db, caller.userId, Active));
        CheckIsExact(secrets(f), presented, now, db.factors[f].lastUsedStep);
        assert Apply(secrets, db, caller, request).factors[f] != db.factors[f];
      case Activate(_, _, _, hashes) => assert hashes[0] in Apply(secrets, db, caller, request).codes;
      case Regenerate(_, hashes) => assert hashes[0] in Apply(secrets, db, caller, request).codes;
    }
  }

  /** Without a recent second factor nobody regenerates codes or disables a factor, whatever else holds. */
  lemma StepUpIsNeeded(secrets: Secrets, db: Tables, caller: Caller, request: Request)
    requires (request.Regenerate? || request.Disable?) && !caller.stepUp
    ensures Apply(secrets, db, caller, request) == db
  {
  }

  /** The session that proves a factor or spends a code is no longer pending, if it is not revoked; no other changes. */
  ghost predicate SessionsAfter(db: Tables, after: Tables, caller: Caller, request: Request) {
    && after.sessions.clock == db.sessions.clock && after.sessions.tokens == db.sessions.tokens
    && after.sessions.sessions.Keys == db.sessions.sessions.Keys
    && forall s | s in db.sessions.sessions ::
         var before := db.sessions.sessions[s];
         after.sessions.sessions[s] ==
           if s == caller.sessionId && before.revokedAt.None? && (request.Activate? || request.VerifyCode? || request.VerifyRecovery?)
           then before.(pendingMfa := false) else before
  }

  /** Enrolment begins with an activation and ends with a disabling; nobody's mandate changes. */
  ghost predicate UsersAfter(db: Tables, after: Tables, caller: Caller, request: Request) {
    && after.users.Keys == db.users.Keys
    && forall u | u in db.users ::
         after.users[u] ==
           if u == caller.userId && (request.Activate? || request.Disable?)
           then db.users[u].(mfaEnrolled := request.Activate?) else db.users[u]
  }

  ghost predicate CodeAfter(before: RecoveryCode, after: RecoveryCode, c: Id, caller: Caller, request: Request) {
    var ended := || (before.userId == caller.userId && (request.Activate? || request.Regenerate? || request.Disable?))
                 || request == VerifyRecovery(c);
    after == before.(consumed := before.consumed || ended)
  }

  /** Old codes end with a new batch and with the factor, or one by one; only a new batch adds codes. */
  ghost predicate CodesAfter(db: Tables, after: Tables, caller: Caller, request: Request) {
    && (forall c | c in db.codes :: c in after.codes && CodeAfter(db.codes[c], after.codes[c], c, caller, request))
    && (forall c :: c in after.codes && c !in db.codes <==> (request.Activate? || request.Regenerate?) && c in request.hashes)
    && (forall c | c in after.codes && c !in db.codes ::
          (request.Activate? || request.Regenerate?) && after.codes[c] == RecoveryCode(caller.userId, request.batchId, false))
  }

  ghost predicate IsLatest(secrets: Secrets, f: Id, presented: string, now: nat, step: nat) {
    && Matches(secrets(f), presented, now, step)
    && forall later: nat | Matches(secrets(f), presented, now, later) :: later <= step
  }

  ghost predicate FactorAfter(secrets: Secrets, before: Factor, after: Factor, f: Id, caller: Caller, request: Request) {
    if before.userId != caller.userId then after == before
    else
      match request
      case Setup(_) => after == if before.status.Pending? then before.(status := Disabled) else before
      case Disable => after == before.(status := Disabled)
      case Activate(presented, now, _, _) =>
        if before.status.Pending?
        then after.lastUsedStep.Some? && after == Factor(caller.userId, Active, after.lastUsedStep) &&
             IsLatest(secrets, f, presented, now, after.lastUsedStep.value)
        else after == before
      case VerifyCode(presented, now) =>
        if before.status.Active?
        then after.lastUsedStep.Some? && after == Factor(caller.userId, Active, after.lastUsedStep) &&
             IsLatest(secrets, f, presented, now, after.lastUsedStep.value)
        else after == before
      case _ => after == before
  }

  /** Factors move as their user's request says; only a set-up adds one, pending and never used. */
  ghost predicate FactorsAfter(secrets: Secrets, db: Tables, after: Tables, caller: Caller, request: Request) {
    && (forall f | f in db.factors :: f in after.factors && FactorAfter(secrets, db.factors[f], after.factors[f], f, caller, request))
    && (forall f :: f in after.factors && f !in db.factors <==> request == Setup(f))
    && (forall f | f in after.factors && f !in db.factors :: after.factors[f] == Factor(caller.userId, Pending, None))
  }

  lemma FactorsAreExact(secrets: Secrets, db: Tables, caller: Caller, request: Request)
    requires Succeeds(secrets, db, caller, request) && OneLiveFactor(db, caller.userId)
    ensures FactorsAfter(secrets, db, Perform(secrets, db, caller, request), caller, request)
  {
    if request.Activate? || request.VerifyCode? {
      var status := if request.Activate? then Pending else Active;
      var f := Only(FactorsIn(db, caller.userId, status));
      OnlyLive(db, caller.userId, status, f);
      CheckIsExact(secrets(f), request.presented, request.now, db.factors[f].lastUsedStep);
      var after := Perform(secrets, db, caller, request);
      forall g | g in db.factors ensures FactorAfter(secrets, db.factors[g], after.factors[g], g, caller, request) {
        assert db.factors[g].userId == caller.userId && db.factors[g].status == status ==> g in FactorsIn(db, caller.userId, status);
      }
    }
  }

  lemma CodesAreExact(secrets: Secrets, db: Tables, caller: Caller, request: Request)
    requires Succeeds(secrets, db, caller, request)
    ensures CodesAfter(db, Perform(secrets, db, caller, request), caller, request)
  {
  }

  lemma UsersAreExact(secrets: Secrets, db: Tables, caller: Caller, request: Request)
    requires Succeeds(secrets, db, caller, request)
    ensures UsersAfter(db, Perform(secrets, db, caller, request), caller, request)
  {
  }

  lemma SessionsAreExact(secrets: Secrets, db: Tables, caller: Caller, request: Request)
    requires Succeeds(secrets, db, caller, request)
    ensures SessionsAfter(db, Perform(secrets, db, caller, request), caller, request)
  {
  }

  /** A request that is granted changes exactly this, and one that is not changes nothing. */
  lemma RequestsAreExact(secrets: Secrets, db: Tables, caller: Caller, request: Request)
    requires OneLiveFactor(db, caller.userId)
    ensures var after := Apply(secrets, db, caller, request);
            if IsGranted(secrets, db, caller, request) then
              && FactorsAfter(secrets, db, after, caller, request) && CodesAfter(db, after, caller, request)
              && UsersAfter(db, after, caller, request) && SessionsAfter(db, after, caller, request)
            else after == db
  {
    GrantedSucceeds(secrets, db, caller, request);
    if Succeeds(secrets, db, caller, request) {
      FactorsAreExact(secrets, db, caller, request);
      CodesAreExact(secrets, db, caller, request);
      UsersAreExact(secrets, db, caller, request);
      SessionsAreExact(secrets, db, caller, request);
    }
  }

  /** The caller was enrolled when it was loaded and no longer is. */
  predicate IsStaleRegeneration(secrets: Secrets, db: Tables, caller: Caller, request: Request) {
    && request.Regenerate? && Succeeds(secrets, db, caller, request)
    && caller.userId in db.users && !db.users[caller.userId].mfaEnrolled
  }

  /**
   Every request keeps at most one live factor, enrolment in step with it, and live
   recovery codes of one batch of an enrolled user, with one exception: regenerating
   codes on the strength of an enrolment that was disabled meanwhile.
   */
  lemma RequestsKeepInv(secrets: Secrets, db: Tables, caller: Caller, request: Request)
    requires Inv(db) && caller.userId in db.users
    ensures Inv(Apply(secrets, db, caller, request)) <==> !IsStaleRegeneration(secrets, db, caller, request)
  {
    if Succeeds(secrets, db, caller, request) {
      var (after, user) := (Perform(secrets, db, caller, request), caller.userId);
      assert UserOk(db, user);
      match request {
        case Setup(_) => SetupIsOk(secrets, db, caller, request);
        case Activate(_, _, _, _) => ActivateIsOk(secrets, db, caller, request);
        case Regenerate(_, _) => RegenerateIsOkIfEnrolled(secrets, db, caller, request);
        case Disable => DisableIsOk(secrets, db, caller, request);
        case _ => VerifyIsOk(secrets, db, caller, request);
      }
      assert after.users.Keys == db.users.Keys;
      forall other | other in after.users && other != user ensures UserOk(after, other) {
        assert UserOk(db, other);
        OthersStay(secrets, db, caller, request, other);
        SameIsOk(db, after, other);
      }
    }
  }

  /**
   Two requests loaded while the user was enrolled, the factor disabled by one and codes
   regenerated by the other: the user is not enrolled and holds ten codes that work.
   */
  lemma DisableThenRegenerate(secrets: Secrets, db: Tables, caller: Caller, batchId: Id, hashes: seq<Id>, h: Id)
    requires caller.userId in db.users && caller.stepUp && caller.enrolled && !caller.required
    requires AreFresh(db, hashes) && h in hashes
    ensures var after := Apply(secrets, Apply(secrets, db, caller, Disable), caller, Regenerate(batchId, hashes));
            && caller.userId in after.users && !after.users[caller.userId].mfaEnrolled
            && |LiveCodes(after, caller.userId)| == RECOVERY_CODE_COUNT
            && Succeeds(secrets, after, caller, VerifyRecovery(h))
  {
    var disabled := Apply(secrets, db, caller, Disable);
    DisabledState(secrets, db, caller);
    RegeneratedState(secrets, disabled, caller, batchId, hashes, h);
  }

  lemma DisabledState(secrets: Secrets, db: Tables, caller: Caller)
    requires caller.userId in db.users && caller.stepUp && !caller.required
    ensures var disabled := Apply(secrets, db, caller, Disable);
            && caller.userId in disabled.users && !disabled.users[caller.userId].mfaEnrolled
            && disabled.codes.Keys == db.codes.Keys
  {
  }

  lemma RegeneratedState(secrets: Secrets, db: Tables, caller: Caller, batchId: Id, hashes: seq<Id>, h: Id)
    requires caller.stepUp && caller.enrolled && AreFresh(db, hashes) && h in hashes
    ensures var after := Apply(secrets, db, caller, Regenerate(batchId, hashes));
            && after.users == db.users && |LiveCodes(after, caller.userId)| == RECOVERY_CODE_COUNT
            && h in LiveCodes(after, caller.userId)
  {
    IssuedCodesAreOk(db, caller.userId, batchId, hashes);
    assert h in Elements(hashes);
  }

  /** A user for whom a factor is mandatory loses it exactly by disabling it on the strength of an older mandate flag. */
  lemma MandatedStaysEnrolledUnlessStale(secrets: Secrets, db: Tables, caller: Caller, request: Request, user: Id)
    requires user in db.users && db.users[user].mfaRequired && db.users[user].mfaEnrolled
    ensures user in Apply(secrets, db, caller, request).users
    ensures !Apply(secrets, db, caller, request).users[user].mfaEnrolled <==>
              request.Disable? && caller.userId == user && caller.stepUp && !caller.required
  {
  }

  // ---------------------------------------------------------------------------
  // Runs
  // ---------------------------------------------------------------------------

  /** A request, or something elsewhere: sessions come and go and mandates change. */
  datatype Event = Call(caller: Caller, request: Request) | Elsewhere(required: set<Id>, sessions: Db)

  function Occur(secrets: Secrets, db: Tables, event: Event): Tables {
    match event
    case Call(caller, request) => Apply(secrets, db, caller, request)
    case Elsewhere(required, sessions) =>
      db.(users := map u | u in db.users :: db.users[u].(mfaRequired := u in required), sessions := sessions)
  }

  function After(secrets: Secrets, start: Tables, events: seq<Event>): Tables
    decreases |events|
  {
    if events == [] then start
    else Occur(secrets, After(secrets, start, events[..|events| - 1]), events[|events| - 1])
  }

  ghost predicate KeepsInv(secrets: Secrets, db: Tables, event: Event) {
    event.Call? ==> event.caller.userId in db.users && !IsStaleRegeneration(secrets, db, event.caller, event.request)
  }

  lemma {:induction false} InvHolds(secrets: Secrets, start: Tables, events: seq<Event>)
    requires Inv(start)
    requires forall i | 0 <= i < |events| :: KeepsInv(secrets, After(secrets, start, events[..i]), events[i])
    ensures Inv(After(secrets, start, events))
    decreases |events|
  {
    if events != [] {
      var (before, event) := (events[..|events| - 1], events[|events| - 1]);
      forall i | 0 <= i < |before| ensures KeepsInv(secrets, After(secrets, start, before[..i]), before[i]) {
        assert before[..i] == events[..i] && before[i] == events[i];
      }
      InvHolds(secrets, start, before);
      var db := After(secrets, start, before);
      assert KeepsInv(secrets, db, event);
      match event
      case Call(caller, request) => RequestsKeepInv(secrets, db, caller, request);
      case Elsewhere(_, _) => ElsewhereKeepsInv(secrets, db, event);
    }
  }

  lemma ElsewhereKeepsInv(secrets: Secrets, db: Tables, event: Event)
    requires Inv(db) && event.Elsewhere?
    ensures Inv(Occur(secrets, db, event))
  {
    var after := Occur(secrets, db, event);
    forall user | user in after.users ensures UserOk(after, user) {
      assert UserOk(db, user);
      assert LiveCodes(after, user) == LiveCodes(db, user);
      assert FactorsIn(after, user, Active) == FactorsIn(db, user, Active);
      assert forall f :: IsLiveFactor(after, user, f) <==> IsLiveFactor(db, user, f);
    }
  }

  function Rank(status: Status): nat {
    match status
    case Pending => 0
    case Active => 1
    case Disabled => 2
  }

  /** Factors go from pending to active to disabled, watermarks rise, and used codes stay used. */
  ghost predicate Later(before: Tables, after: Tables) {
    && (forall f | f in before.factors ::
          && f in after.factors && after.factors[f].userId == before.factors[f].userId
          && Rank(before.factors[f].status) <= Rank(after.factors[f].status)
          && (before.factors[f].lastUsedStep.Some? ==>
                after.factors[f].lastUsedStep.Some? && before.factors[f].lastUsedStep.value <= after.factors[f].lastUsedStep.value))
    && (forall c | c in before.codes ::
          && c in after.codes && after.codes[c].userId == before.codes[c].userId
          && (before.codes[c].consumed ==> after.codes[c].consumed))
  }

  lemma IssueIsLater(db: Tables, user: Id, batchId: Id, hashes: seq<Id>)
    requires AreFresh(db, hashes)
    ensures Later(db, IssueCodes(db, user, batchId, hashes))
  {
  }

  lemma ActivatedIsLater(db: Tables, caller: Caller, f: Id, step: nat)
    requires f in db.factors && db.factors[f].userId == caller.userId && db.factors[f].status.Pending?
    requires db.factors[f].lastUsedStep.Some? ==> db.factors[f].lastUsedStep.value <= step
    ensures Later(db, Activated(db, caller, f, step))
  {
  }

  lemma ActivateIsLater(secrets: Secrets, db: Tables, caller: Caller, request: Request)
    requires request.Activate? && Succeeds(secrets, db, caller, request)
    ensures Later(db, Perform(secrets, db, caller, request))
  {
    var f := Only(FactorsIn(db, caller.userId, Pending));
    var step := Judge(secrets, db, caller.userId, Pending, request.presented, request.now).value.step;
    CheckIsExact(secrets(f), request.presented, request.now, db.factors[f].lastUsedStep);
    var active := Activated(db, caller, f, step);
    ActivatedIsLater(db, caller, f, step);
    IssueIsLater(active, caller.userId, request.batchId, request.hashes);
    LaterIsTransitive(db, active, IssueCodes(active, caller.userId, request.batchId, request.hashes));
  }

  lemma RequestIsLater(secrets: Secrets, db: Tables, caller: Caller, request: Request)
    ensures Later(db, Apply(secrets, db, caller, request))
  {
    if Succeeds(secrets, db, caller, request) {
      match request
      case Activate(_, _, _, _) => ActivateIsLater(secrets, db, caller, request);
      case Regenerate(batchId, hashes) => IssueIsLater(db, caller.userId, batchId, hashes);
      case _ =>
    }
  }

  lemma {:induction false} RunIsLater(secrets: Secrets, start: Tables, events: seq<Event>, i: nat)
    requires i <= |events|
    ensures Later(After(secrets, start, events[..i]), After(secrets, start, events))
    decreases |events|
  {
    if i == |events| {
      assert events[..i] == events;
    } else {
      var (before, event) := (events[..|events| - 1], events[|events| - 1]);
      assert before[..i] == events[..i];
      RunIsLater(secrets, start, before, i);
      if event.Call? {
        RequestIsLater(secrets, After(secrets, start, before), event.caller, event.request);
      }
      LaterIsTransitive(After(secrets, start, events[..i]), After(secrets, start, before), After(secrets, start, events));
    }
  }

  lemma LaterIsTransitive(a: Tables, b: Tables, c: Tables)
    requires Later(a, b) && Later(b, c)
    ensures Later(a, c)
  {
  }

  /** The event accepts time step `step` for factor `f`. */
  predicate Accepts(secrets: Secrets, db: Tables, event: Event, f: Id, step: nat) {
    && event.Call? && (event.request.VerifyCode? || event.request.Activate?)
    && Succeeds(secrets, db, event.caller, event.request)
    && var status := if event.request.Activate? then Pending else Active;
       && f == Only(FactorsIn(db, event.caller.userId, status))
       && Judge(secrets, db, event.caller.userId, status, event.request.presented, event.request.now) == Some(Valid(step))
  }

  lemma AcceptanceMovesWatermark(secrets: Secrets, db: Tables, event: Event, f: Id, step: nat)
    requires Accepts(secrets, db, event, f, step)
    ensures f in db.factors && f in Occur(secrets, db, event).factors
    ensures db.factors[f].lastUsedStep.Some? ==> db.factors[f].lastUsedStep.value < step
    ensures Occur(secrets, db, event).factors[f].lastUsedStep == Some(step)
  {
  }

  /** The steps accepted for a factor rise strictly: no code is good for the same step twice. */
  lemma AcceptedStepsRise(
    secrets: Secrets, start: Tables, events: seq<Event>, i: nat, j: nat, f: Id, earlier: nat, later: nat)
    requires i < j < |events|
    requires Accepts(secrets, After(secrets, start, events[..i]), events[i], f, earlier)
    requires Accepts(secrets, After(secrets, start, events[..j]), events[j], f, later)
    ensures earlier < later
  {
    AcceptanceMovesWatermark(secrets, After(secrets, start, events[..i]), events[i], f, earlier);
    AcceptanceMovesWatermark(secrets, After(secrets, start, events[..j]), events[j], f, later);
    assert events[..i + 1][..i] == events[..i] && events[..j][..i + 1] == events[..i + 1];
    RunIsLater(secrets, start, events[..j], i + 1);
  }

  predicate Spends(secrets: Secrets, db: Tables, event: Event, hash: Id) {
    event.Call? && event.request == VerifyRecovery(hash) && Succeeds(secrets, db, event.caller, event.request)
  }

  /** A recovery code completes a login at most once. */
  lemma CodeIsSpentOnce(secrets: Secrets, start: Tables, events: seq<Event>, i: nat, j: nat, hash: Id)
    requires i < j < |events| && Spends(secrets, After(secrets, start, events[..i]), events[i], hash)
    ensures !Spends(secrets, After(secrets, start, events[..j]), events[j], hash)
  {
    assert events[..i + 1][..i] == events[..i] && events[..j][..i + 1] == events[..i + 1];
    RunIsLater(secrets, start, events[..j], i + 1);
  }

  /** The request proves a factor or spends a code for session `s`. */
  predicate Proves(secrets: Secrets, db: Tables, caller: Caller, request: Request, s: Id) {
    && caller.sessionId == s && Succeeds(secrets, db, caller, request)
    && (request.Activate? || request.VerifyCode? || request.VerifyRecovery?)
  }

  /** A request takes a session out of the pending state exactly if it proves a factor or spends a code for it. */
  lemma PendingEndsOnlyByProof(secrets: Secrets, db: Tables, caller: Caller, request: Request, s: Id)
    requires s in db.sessions.sessions && db.sessions.sessions[s].pendingMfa
    ensures s in Apply(secrets, db, caller, request).sessions.sessions
    ensures !Apply(secrets, db, caller, request).sessions.sessions[s].pendingMfa <==>
              Proves(secrets, db, caller, request, s) && db.sessions.sessions[s].revokedAt.None?
  {
  }

  // ---------------------------------------------------------------------------
  // The tables, updated statement by statement
  // ---------------------------------------------------------------------------

  datatype Answer =
    | Done
    | StepUpRequired
    | AlreadyEnrolled
    | NotPending
    | NotEnrolled
    | Mandatory
    | CodeRefused
    | DigestTaken
    | IdTaken

  class Store {
    var users: map<Id, Account>
    var factors: map<Id, Factor>
    var codes: map<Id, RecoveryCode>
    var sessions: Db

    function Contents(): Tables
      reads this
    {
      Tables(users, factors, codes, sessions)
    }

    constructor (db: Tables)
      ensures Contents() == db
    {
      users, factors, codes, sessions := db.users, db.factors, db.codes, db.sessions;
    }

    method RollBack(db: Tables)
      modifies this
      ensures Contents() == db
    {
      users, factors, codes, sessions := db.users, db.factors, db.codes, db.sessions;
    }

    /** The user's factor in a status; the index on live factors leaves no choice. */
    method LockFactor(user: Id, status: Status) returns (f: Option<Id>)
      requires OneLiveFactor(Contents(), user) && !status.Disabled?
      ensures f.None? <==> FactorsIn(Contents(), user, status) == {}
      ensures f.Some? ==> |FactorsIn(Contents(), user, status)| == 1 && f.value == Only(FactorsIn(Contents(), user, status))
    {
      var found := FactorsIn(Contents(), user, status);
      if found == {} {
        return None;
      }
      var g :| g in found;
      OnlyLive(Contents(), user, status, g);
      f := Some(g);
    }

    /** Ten new codes in place of the old ones; a digest that is taken fails the transaction. */
    method IssueRecoveryCodes(user: Id, batchId: Id, hashes: seq<Id>) returns (ok: bool)
      requires |hashes| == RECOVERY_CODE_COUNT
      modifies this`codes
      ensures ok <==> AreFresh(old(Contents()), hashes)
      ensures ok ==> Contents() == IssueCodes(old(Contents()), user, batchId, hashes)
    {
      codes := ConsumeBatch(Contents(), user).codes;
      ghost var consumed := codes;
      assert WithCodes(consumed, user, batchId, []) == consumed;
      for i := 0 to |hashes|
        invariant codes == WithCodes(consumed, user, batchId, hashes[..i])
        invariant AreNew(consumed, hashes[..i])
      {
        InsertStep(consumed, user, batchId, hashes, i);
        if hashes[i] in codes {
          return false;
        }
        codes := codes[hashes[i] := RecoveryCode(user, batchId, false)];
      }
      assert hashes[..|hashes|] == hashes;
      ok := true;
    }

    method TotpSetup(caller: Caller, factorId: Id, secrets: Secrets) returns (answer: Answer)
      requires OneLiveFactor(Contents(), caller.userId)
      modifies this
      ensures Contents() == Apply(secrets, old(Contents()), caller, Setup(factorId))
      ensures var active := FactorsIn(old(Contents()), caller.userId, Active) != {};
              answer == if active then AlreadyEnrolled else if factorId in old(factors) then IdTaken else Done
    {
      var active := LockFactor(caller.userId, Active);
      if active.Some? {
        return AlreadyEnrolled;
      }
      if factorId in factors {
        return IdTaken;
      }
      factors := DisableFactors(Contents(), FactorsIn(Contents(), caller.userId, Pending)).factors;
      factors := factors[factorId := Factor(caller.userId, Pending, None)];
      answer := Done;
    }

    method TotpActivate(secrets: Secrets, caller: Caller, presented: string, now: nat, batchId: Id, hashes: seq<Id>)
      returns (answer: Answer)
      requires OneLiveFactor(Contents(), caller.userId) && |hashes| == RECOVERY_CODE_COUNT
      modifies this
      ensures Contents() == Apply(secrets, old(Contents()), caller, Activate(presented, now, batchId, hashes))
      ensures answer.NotPending? <==> FactorsIn(old(Contents()), caller.userId, Pending) == {}
      ensures answer.Done? <==> Succeeds(secrets, old(Contents()), caller, Activate(presented, now, batchId, hashes))
      ensures answer in {Done, NotPending, CodeRefused, DigestTaken}
      ensures answer.DigestTaken? ==> !AreFresh(old(Contents()), hashes)
    {
      var before := Contents();
      var f := LockFactor(caller.userId, Pending);
      if f.None? {
        return NotPending;
      }
      var verdict := Totp.Verify(secrets(f.value), presented, now, factors[f.value].lastUsedStep);
      if !verdict.Valid? {
        return CodeRefused;
      }
      factors := factors[f.value := Factor(caller.userId, Active, Some(verdict.step))];
      users := SetEnrolled(Contents(), caller.userId, true).users;
      sessions := MarkVerified(sessions, caller.sessionId);
      var ok := IssueRecoveryCodes(caller.userId, batchId, hashes);
      if !ok {
        RollBack(before);
      }
      answer := if ok then Done else DigestTaken;
    }

    method VerifyTotp(secrets: Secrets, caller: Caller, presented: string, now: nat) returns (answer: Answer)
      requires OneLiveFactor(Contents(), caller.userId)
      modifies this
      ensures Contents() == Apply(secrets, old(Contents()), caller, VerifyCode(presented, now))
      ensures answer == if Succeeds(secrets, old(Contents()), caller, VerifyCode(presented, now)) then Done else CodeRefused
    {
      var f := LockFactor(caller.userId, Active);
      if f.None? {
        return CodeRefused;
      }
      var factor := factors[f.value];
      var verdict := Totp.Verify(secrets(f.value), presented, now, factor.lastUsedStep);
      if !verdict.Valid? {
        return CodeRefused;
      }
      factors := factors[f.value := factor.(lastUsedStep := Some(Greatest(factor.lastUsedStep, verdict.step)))];
      sessions := MarkVerified(sessions, caller.sessionId);
      answer := Done;
    }

    method RecoveryVerify(secrets: Secrets, caller: Caller, hash: Id) returns (remaining: Option<nat>)
      modifies this
      ensures Contents() == Apply(secrets, old(Contents()), caller, VerifyRecovery(hash))
      ensures remaining.Some? <==> hash in LiveCodes(old(Contents()), caller.userId)
      ensures remaining.Some? ==> remaining.value == |LiveCodes(old(Contents()), caller.userId)| - 1
    {
      if hash !in codes || codes[hash].userId != caller.userId || codes[hash].consumed {
        return None;
      }
      ghost var live := LiveCodes(Contents(), caller.userId);
      codes := codes[hash := codes[hash].(consumed := true)];
      sessions := MarkVerified(sessions, caller.sessionId);
      assert LiveCodes(Contents(), caller.userId) == live - {hash};
      remaining := Some(|LiveCodes(Contents(), caller.userId)|);
    }

    method RecoveryRegenerate(secrets: Secrets, caller: Caller, batchId: Id, hashes: seq<Id>) returns (answer: Answer)
      requires |hashes| == RECOVERY_CODE_COUNT
      modifies this
      ensures Contents() == Apply(secrets, old(Contents()), caller, Regenerate(batchId, hashes))
      ensures answer.StepUpRequired? <==> !caller.stepUp
      ensures answer.NotEnrolled? <==> caller.stepUp && !caller.enrolled
      ensures caller.stepUp && caller.enrolled ==> answer == if AreFresh(old(Contents()), hashes) then Done else DigestTaken
    {
      if !caller.stepUp {
        return StepUpRequired;
      }
      if !caller.enrolled {
        return NotEnrolled;
      }
      var before := Contents();
      var ok := IssueRecoveryCodes(caller.userId, batchId, hashes);
      if !ok {
        RollBack(before);
      }
      answer := if ok then Done else DigestTaken;
    }

    method DisableFactor(secrets: Secrets, caller: Caller) returns (answer: Answer)
      modifies this
      ensures Contents() == Apply(secrets, old(Contents()), caller, Disable)
      ensures answer == if !caller.stepUp then StepUpRequired else if caller.required then Mandatory else Done
    {
      if !caller.stepUp {
        return StepUpRequired;
      }
      if caller.required {
        return Mandatory;
      }
      var live := FactorsIn(Contents(), caller.userId, Pending) + FactorsIn(Contents(), caller.userId, Active);
      factors := DisableFactors(Contents(), live).factors;
      codes := ConsumeBatch(Contents(), caller.userId).codes;
      users := SetEnrolled(Contents(), caller.userId, false).users;
      answer := Done;
    }
  }
}
