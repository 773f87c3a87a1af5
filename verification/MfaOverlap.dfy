/**
 Regenerating codes, activating a factor and disabling one, as they overlap with each other
 and with everything else. Each is a transaction of several statements. A statement picks
 its rows among those committed when it starts and locks them; what it writes is committed
 with the rest. No row is locked by all three, so one may commit between two statements of
 another.
 */
module MfaOverlap {
  import opened Bytes
  import opened Totp
  import opened Sessions
  import opened Mfa

  datatype Work =
    | Issuing(batchId: Id, hashes: seq<Id>)
    | Activating(presented: string, now: nat, batchId: Id, hashes: seq<Id>)
    | Disabling

  /**
   An open transaction. Its first statement, on factors, picked `factorsSeen`; an activation
   then accepted time step `step`. Its second, on codes, picks `codesSeen`. It waits for the
   transactions that hold locks on the rows it picked.
   */
  datatype Open = Open(
    caller: Caller, work: Work, factorsSeen: set<Id>, step: nat, codesSeen: Option<set<Id>>, waitsFor: set<Id>)

  datatype World = World(db: Tables, open: map<Id, Open>)

  datatype Move =
    | Begin(tx: Id, caller: Caller, work: Work)
    | Look(tx: Id)
    | Finish(tx: Id)
    | Abort(tx: Id)
    | Meanwhile(event: Event)

  predicate IssuesCodes(work: Work) {
    !work.Disabling?
  }

  /** What is checked before the first write: flags of the caller as loaded, or the presented code under the factor's lock. */
  predicate MayBegin(secrets: Secrets, db: Tables, caller: Caller, work: Work) {
    match work
    case Issuing(_, hashes) => caller.stepUp && caller.enrolled && |hashes| == RECOVERY_CODE_COUNT
    case Activating(presented, now, _, hashes) =>
      var judged := Judge(secrets, db, caller.userId, Pending, presented, now);
      judged.Some? && judged.value.Valid? && |hashes| == RECOVERY_CODE_COUNT
    case Disabling => caller.stepUp && !caller.required
  }

  /** The rows of the first statement: none, the pending factor locked, or every live factor disabled. */
  function FactorsPicked(db: Tables, user: Id, work: Work): set<Id> {
    match work
    case Issuing(_, _) => {}
    case Activating(_, _, _, _) => FactorsIn(db, user, Pending)
    case Disabling => FactorsIn(db, user, Pending) + FactorsIn(db, user, Active)
  }

  function StepOf(secrets: Secrets, db: Tables, user: Id, work: Work): nat {
    match work
    case Activating(presented, now, _, _) =>
      (match Judge(secrets, db, user, Pending, presented, now)
       case Some(Valid(step)) => step
       case _ => 0)
    case _ => 0
  }

  function CodesOf(o: Open): set<Id> {
    if o.codesSeen.Some? then o.codesSeen.value else {}
  }

  function FactorHolders(w: World, factors: set<Id>): set<Id> {
    set tx | tx in w.open && w.open[tx].factorsSeen * factors != {}
  }

  function CodeHolders(w: World, codes: set<Id>): set<Id> {
    set tx | tx in w.open && CodesOf(w.open[tx]) * codes != {}
  }

  /** The statements that end the transaction meet what they need: digests not taken, and the locked factor still pending. */
  predicate CanFinish(db: Tables, o: Open) {
    && o.codesSeen.Some?
    && (IssuesCodes(o.work) ==> AreFresh(db, o.work.hashes))
    && (o.work.Activating? ==> |o.factorsSeen| == 1 && o.factorsSeen == FactorsIn(db, o.caller.userId, Pending))
  }

  predicate CanMove(secrets: Secrets, w: World, move: Move) {
    match move
    case Begin(tx, caller, work) =>
      && tx !in w.open && caller.userId in w.db.users && MayBegin(secrets, w.db, caller, work)
      && (work.Activating? ==> FactorHolders(w, FactorsPicked(w.db, caller.userId, work)) == {})
    case Look(tx) => tx in w.open && w.open[tx].codesSeen.None? && w.open[tx].waitsFor !! w.open.Keys
    case Finish(tx) => tx in w.open && w.open[tx].waitsFor !! w.open.Keys && CanFinish(w.db, w.open[tx])
    case Abort(tx) => tx in w.open
    case Meanwhile(event) => event.Call? ==> event.caller.userId in w.db.users
  }

  /** What becomes of the factors, the enrolment and the session. */
  function FactorsDone(db: Tables, o: Open): Tables {
    match o.work
    case Issuing(_, _) => db
    case Activating(_, _, _, _) =>
      if |o.factorsSeen| == 1 then Activated(db, o.caller, Only(o.factorsSeen), o.step) else db
    case Disabling => SetEnrolled(DisableFactors(db, o.factorsSeen), o.caller.userId, false)
  }

  /** The codes picked are used up. */
  function ConsumeSeen(db: Tables, seen: set<Id>): Tables {
    db.(codes := map c | c in db.codes :: if c in seen then db.codes[c].(consumed := true) else db.codes[c])
  }

  function CodesDone(db: Tables, o: Open): Tables {
    var consumed := ConsumeSeen(db, CodesOf(o));
    if IssuesCodes(o.work)
    then consumed.(codes := WithCodes(consumed.codes, o.caller.userId, o.work.batchId, o.work.hashes))
    else consumed
  }

  /** Everything the transaction has written, committed together. */
  function Finished(db: Tables, o: Open): Tables {
    CodesDone(FactorsDone(db, o), o)
  }

  function Moved(secrets: Secrets, w: World, move: Move): World
    requires CanMove(secrets, w, move)
  {
    match move
    case Begin(tx, caller, work) =>
      var picked := FactorsPicked(w.db, caller.userId, work);
      w.(open := w.open[tx := Open(caller, work, picked, StepOf(secrets, w.db, caller.userId, work), None, FactorHolders(w, picked))])
    case Look(tx) =>
      var picked := LiveCodes(w.db, w.open[tx].caller.userId);
      w.(open := w.open[tx := w.open[tx].(codesSeen := Some(picked), waitsFor := CodeHolders(w, picked))])
    case Finish(tx) => World(Finished(w.db, w.open[tx]), w.open - {tx})
    case Abort(tx) => w.(open := w.open - {tx})
    case Meanwhile(event) => w.(db := Occur(secrets, w.db, event))
  }

  /** The rows picked are the caller's own. */
  ghost predicate OwnRows(db: Tables, o: Open) {
    && o.caller.userId in db.users
    && (forall f | f in o.factorsSeen :: f in db.factors && db.factors[f].userId == o.caller.userId)
    && (forall c | c in CodesOf(o) :: c in db.codes && db.codes[c].userId == o.caller.userId)
  }

  ghost predicate OpenOk(w: World) {
    forall tx | tx in w.open :: OwnRows(w.db, w.open[tx])
  }

  // ---------------------------------------------------------------------------
  // One transaction finishing
  // ---------------------------------------------------------------------------

  /**
   What the end of a transaction needs for the user to be left in order. Issuing: no code
   was issued since it looked, and the user is still enrolled. Disabling: no code was issued
   since it looked, and no factor is active that its first statement did not see. An
   activation needs nothing, as the factor it has locked is the only live one.
   */
  ghost predicate IsUndisturbed(db: Tables, o: Open) {
    var user := o.caller.userId;
    match o.work
    case Issuing(_, _) => LiveCodes(db, user) <= CodesOf(o) && user in db.users && db.users[user].mfaEnrolled
    case Activating(_, _, _, _) => true
    case Disabling => LiveCodes(db, user) <= CodesOf(o) && FactorsIn(db, user, Active) <= o.factorsSeen
  }

  /** The request that does the same at once. */
  function AtOnce(o: Open): Request {
    match o.work
    case Issuing(batchId, hashes) => Regenerate(batchId, hashes)
    case Activating(presented, now, batchId, hashes) => Activate(presented, now, batchId, hashes)
    case Disabling => Disable
  }

  lemma DisableSeenIsAll(db: Tables, o: Open)
    requires OwnRows(db, o)
    requires FactorsIn(db, o.caller.userId, Pending) + FactorsIn(db, o.caller.userId, Active) <= o.factorsSeen
    ensures DisableFactors(db, o.factorsSeen) ==
              DisableFactors(db, FactorsIn(db, o.caller.userId, Pending) + FactorsIn(db, o.caller.userId, Active))
  {
    var live := FactorsIn(db, o.caller.userId, Pending) + FactorsIn(db, o.caller.userId, Active);
    forall f | f in db.factors ensures DisableFactors(db, o.factorsSeen).factors[f] == DisableFactors(db, live).factors[f] {
      assert f in o.factorsSeen && f !in live ==> db.factors[f].status.Disabled?;
    }
  }

  lemma FactorsDoneKeepsCodes(db: Tables, o: Open)
    ensures FactorsDone(db, o).codes == db.codes && FactorsDone(db, o).users.Keys == db.users.Keys
  {
  }

  /** The codes picked are the caller's, and none of the live ones is missing. */
  ghost predicate SawCodes(db: Tables, o: Open) {
    && (forall c | c in CodesOf(o) :: c in db.codes && db.codes[c].userId == o.caller.userId)
    && LiveCodes(db, o.caller.userId) <= CodesOf(o)
  }

  lemma SeenCodesAreBatch(db: Tables, o: Open)
    requires SawCodes(db, o)
    ensures ConsumeSeen(db, CodesOf(o)) == ConsumeBatch(db, o.caller.userId)
  {
    forall c | c in db.codes
      ensures ConsumeSeen(db, CodesOf(o)).codes[c] == ConsumeBatch(db, o.caller.userId).codes[c]
    {
      assert db.codes[c].userId == o.caller.userId && c !in CodesOf(o) ==> c !in LiveCodes(db, o.caller.userId);
    }
  }

  /** A transaction that saw every live factor and code of its user does what its request does at once. */
  lemma SeeingAllIsAtOnce(secrets: Secrets, db: Tables, o: Open)
    requires OwnRows(db, o) && CanFinish(db, o) && LiveCodes(db, o.caller.userId) <= CodesOf(o)
    requires MayBegin(secrets, db, o.caller, o.work) && o.step == StepOf(secrets, db, o.caller.userId, o.work)
    requires o.work.Disabling? ==> FactorsPicked(db, o.caller.userId, Disabling) <= o.factorsSeen
    ensures Finished(db, o) == Apply(secrets, db, o.caller, AtOnce(o))
  {
    FactorsDoneKeepsCodes(db, o);
    SeenCodesAreBatch(FactorsDone(db, o), o);
    if o.work.Disabling? {
      DisableSeenIsAll(db, o);
    }
  }

  lemma FinishedOthersStay(db: Tables, o: Open, other: Id)
    requires OwnRows(db, o) && CanFinish(db, o) && other != o.caller.userId && other in db.users
    ensures SameFor(db, Finished(db, o), other)
  {
    var between := FactorsDone(db, o);
    FactorsDoneOthersStay(db, o, other);
    CodesDoneOthersStay(between, o, other);
  }

  lemma FactorsDoneOthersStay(db: Tables, o: Open, other: Id)
    requires OwnRows(db, o) && other != o.caller.userId && other in db.users
    ensures SameFor(db, FactorsDone(db, o), other) && FactorsDone(db, o).codes == db.codes
  {
  }

  lemma CodesDoneOthersStay(db: Tables, o: Open, other: Id)
    requires other != o.caller.userId && other in db.users
    requires forall c | c in CodesOf(o) :: c in db.codes && db.codes[c].userId == o.caller.userId
    requires IssuesCodes(o.work) ==> AreFresh(db, o.work.hashes)
    ensures SameFor(db, CodesDone(db, o), other)
  {
  }

  ghost function NewCodes(o: Open): set<Id> {
    if IssuesCodes(o.work) then Elements(o.work.hashes) else {}
  }

  /** Afterwards the codes it did not see are live besides the new ones. */
  lemma LiveAfter(db: Tables, o: Open)
    ensures LiveCodes(Finished(db, o), o.caller.userId) == (LiveCodes(db, o.caller.userId) - CodesOf(o)) + NewCodes(o)
  {
    FactorsDoneKeepsCodes(db, o);
    forall c ensures c in LiveCodes(Finished(db, o), o.caller.userId) <==>
                       c in (LiveCodes(db, o.caller.userId) - CodesOf(o)) + NewCodes(o) {
    }
  }

  lemma DisjointCount(a: set<Id>, b: set<Id>)
    requires a !! b
    ensures |a + b| == |a| + |b|
  {
  }

  lemma SubsetIsEmptyRest(a: set<Id>, b: set<Id>)
    ensures a <= b <==> |a - b| == 0
  {
    if a - b == {} {
      assert forall x | x in a :: x in b || x in a - b;
    }
  }

  /** New codes are none of the old ones. */
  lemma NewAreOthers(db: Tables, user: Id, hashes: seq<Id>)
    requires AreFresh(db, hashes)
    ensures Elements(hashes) !! LiveCodes(db, user) && |Elements(hashes)| == RECOVERY_CODE_COUNT
  {
    ElementsCount(hashes);
  }

  lemma CountAfter(db: Tables, o: Open)
    requires IssuesCodes(o.work) && AreFresh(db, o.work.hashes)
    ensures |LiveCodes(Finished(db, o), o.caller.userId)| ==
              |LiveCodes(db, o.caller.userId) - CodesOf(o)| + RECOVERY_CODE_COUNT
  {
    LiveAfter(db, o);
    NewAreOthers(db, o.caller.userId, o.work.hashes);
    DisjointCount(LiveCodes(db, o.caller.userId) - CodesOf(o), Elements(o.work.hashes));
  }

  lemma NewCodesAreOneBatch(db: Tables, o: Open, c: Id)
    requires IssuesCodes(o.work) && c in o.work.hashes
    ensures c in Finished(db, o).codes && Finished(db, o).codes[c].batchId == o.work.batchId
  {
  }

  /** The code part of the user's order, for a transaction that issues codes. */
  lemma IssuedCodesOkExactly(db: Tables, o: Open)
    requires IssuesCodes(o.work) && AreFresh(db, o.work.hashes) && o.caller.userId in db.users
    ensures var (user, after) := (o.caller.userId, Finished(db, o));
            CodesOk(after, user) <==> LiveCodes(db, user) <= CodesOf(o) && user in after.users && after.users[user].mfaEnrolled
  {
    var (user, after) := (o.caller.userId, Finished(db, o));
    LiveAfter(db, o);
    CountAfter(db, o);
    SubsetIsEmptyRest(LiveCodes(db, user), CodesOf(o));
    if LiveCodes(db, user) <= CodesOf(o) {
      assert LiveCodes(after, user) == Elements(o.work.hashes);
      forall c | c in LiveCodes(after, user) ensures after.codes[c].batchId == o.work.batchId {
        NewCodesAreOneBatch(db, o, c);
      }
    }
  }

  lemma CodesDoneKeepsFactors(db: Tables, o: Open)
    ensures CodesDone(db, o).factors == db.factors && CodesDone(db, o).users == db.users
  {
  }

  lemma SameFactorsSameEnrolment(before: Tables, after: Tables, user: Id)
    requires after.factors == before.factors && after.users == before.users
    ensures OneLiveFactor(after, user) <==> OneLiveFactor(before, user)
    ensures EnrolledExactly(after, user) <==> EnrolledExactly(before, user)
  {
    assert forall f :: IsLiveFactor(after, user, f) <==> IsLiveFactor(before, user, f);
    assert FactorsIn(after, user, Active) == FactorsIn(before, user, Active);
  }

  lemma IssuingIsOkExactly(db: Tables, o: Open)
    requires o.work.Issuing? && CanFinish(db, o) && o.caller.userId in db.users && UserOk(db, o.caller.userId)
    ensures UserOk(Finished(db, o), o.caller.userId) <==> IsUndisturbed(db, o)
  {
    CodesDoneKeepsFactors(db, o);
    SameFactorsSameEnrolment(db, Finished(db, o), o.caller.userId);
    IssuedCodesOkExactly(db, o);
  }

  /** The pending factor is the only live one, so the user is not enrolled and has no live codes. */
  lemma PendingMeansNoCodes(db: Tables, user: Id, f: Id)
    requires user in db.users && UserOk(db, user) && f in FactorsIn(db, user, Pending)
    ensures FactorsIn(db, user, Active) == {} && LiveCodes(db, user) == {}
  {
    forall g ensures g !in FactorsIn(db, user, Active) {
      assert g in FactorsIn(db, user, Active) ==> IsLiveFactor(db, user, g) && IsLiveFactor(db, user, f);
    }
  }

  lemma ActivatingIsOk(db: Tables, o: Open)
    requires o.work.Activating? && CanFinish(db, o) && o.caller.userId in db.users && UserOk(db, o.caller.userId)
    ensures UserOk(Finished(db, o), o.caller.userId)
  {
    var (user, f) := (o.caller.userId, Only(o.factorsSeen));
    var between := FactorsDone(db, o);
    PendingMeansNoCodes(db, user, f);
    ActivatedIsEnrolled(db, o.caller, f, o.step);
    assert forall g :: IsLiveFactor(between, user, g) ==> IsLiveFactor(db, user, g);
    CodesDoneKeepsFactors(between, o);
    SameFactorsSameEnrolment(between, Finished(db, o), user);
    IssuedCodesOkExactly(db, o);
  }

  lemma DisabledState(db: Tables, o: Open)
    requires o.work.Disabling? && o.caller.userId in db.users && OwnRows(db, o)
    ensures var (user, after) := (o.caller.userId, FactorsDone(db, o));
            && user in after.users && !after.users[user].mfaEnrolled
            && FactorsIn(after, user, Active) == FactorsIn(db, user, Active) - o.factorsSeen
            && forall f :: IsLiveFactor(after, user, f) ==> IsLiveFactor(db, user, f)
  {
  }

  lemma DisablingIsOkExactly(db: Tables, o: Open)
    requires o.work.Disabling? && CanFinish(db, o) && OwnRows(db, o) && UserOk(db, o.caller.userId)
    ensures UserOk(Finished(db, o), o.caller.userId) <==> IsUndisturbed(db, o)
  {
    var (user, between, after) := (o.caller.userId, FactorsDone(db, o), Finished(db, o));
    DisabledState(db, o);
    CodesDoneKeepsFactors(between, o);
    SameFactorsSameEnrolment(between, after, user);
    LiveAfter(db, o);
    SubsetIsEmptyRest(LiveCodes(db, user), CodesOf(o));
    SubsetIsEmptyRest(FactorsIn(db, user, Active), o.factorsSeen);
    assert FactorsIn(between, user, Active) == {} <==> forall f :: f !in FactorsIn(between, user, Active);
    assert LiveCodes(after, user) == {} <==> CodesOk(after, user);
  }

  // ---------------------------------------------------------------------------
  // Runs
  // ---------------------------------------------------------------------------

  /** A transaction finishes disturbed, or a request at once goes by an enrolment that is gone. */
  ghost predicate Breaks(secrets: Secrets, w: World, move: Move)
    requires CanMove(secrets, w, move)
  {
    match move
    case Finish(tx) => !IsUndisturbed(w.db, w.open[tx])
    case Meanwhile(Call(caller, request)) => IsStaleRegeneration(secrets, w.db, caller, request)
    case _ => false
  }

  lemma FinishKeepsInvExactly(w: World, tx: Id)
    requires Inv(w.db) && OpenOk(w) && tx in w.open && CanFinish(w.db, w.open[tx])
    ensures Inv(Finished(w.db, w.open[tx])) <==> IsUndisturbed(w.db, w.open[tx])
  {
    var (db, o) := (w.db, w.open[tx]);
    var (user, after) := (o.caller.userId, Finished(db, o));
    assert OwnRows(db, o) && UserOk(db, user);
    match o.work {
      case Issuing(_, _) => IssuingIsOkExactly(db, o);
      case Activating(_, _, _, _) => ActivatingIsOk(db, o);
      case Disabling => DisablingIsOkExactly(db, o);
    }
    FactorsDoneKeepsCodes(db, o);
    CodesDoneKeepsFactors(FactorsDone(db, o), o);
    forall other | other in db.users && other != user ensures UserOk(after, other) {
      assert UserOk(db, other);
      FinishedOthersStay(db, o, other);
      SameIsOk(db, after, other);
    }
  }

  /** From a good state a move keeps factors, enrolment and codes in order exactly if it does not break them so. */
  lemma MoveKeepsInvExactly(secrets: Secrets, w: World, move: Move)
    requires Inv(w.db) && OpenOk(w) && CanMove(secrets, w, move)
    ensures Inv(Moved(secrets, w, move).db) <==> !Breaks(secrets, w, move)
  {
    match move
    case Finish(tx) => FinishKeepsInvExactly(w, tx);
    case Meanwhile(Call(caller, request)) => RequestsKeepInv(secrets, w.db, caller, request);
    case Meanwhile(Elsewhere(_, _)) => ElsewhereKeepsInv(secrets, w.db, move.event);
    case _ =>
  }

  /** Users, factors and codes stay, with their owners. */
  ghost predicate RowsStay(before: Tables, after: Tables) {
    && after.users.Keys == before.users.Keys
    && (forall f | f in before.factors :: f in after.factors && after.factors[f].userId == before.factors[f].userId)
    && (forall c | c in before.codes :: c in after.codes && after.codes[c].userId == before.codes[c].userId)
  }

  lemma FinishKeepsRows(db: Tables, o: Open)
    requires OwnRows(db, o) && CanFinish(db, o)
    ensures RowsStay(db, Finished(db, o))
  {
    FactorsDoneKeepsCodes(db, o);
    CodesDoneKeepsFactors(FactorsDone(db, o), o);
    assert forall f | f in db.factors ::
        f in FactorsDone(db, o).factors && FactorsDone(db, o).factors[f].userId == db.factors[f].userId;
  }

  lemma EventKeepsRows(secrets: Secrets, db: Tables, event: Event)
    ensures RowsStay(db, Occur(secrets, db, event))
  {
    if event.Call? {
      RequestIsLater(secrets, db, event.caller, event.request);
    }
  }

  lemma MoveKeepsOpen(secrets: Secrets, w: World, move: Move)
    requires OpenOk(w) && CanMove(secrets, w, move)
    ensures OpenOk(Moved(secrets, w, move))
  {
    match move
    case Finish(tx) => FinishKeepsRows(w.db, w.open[tx]);
    case Meanwhile(event) => EventKeepsRows(secrets, w.db, event);
    case _ =>
  }

  /** A move that is not possible does not happen. */
  function NextWorld(secrets: Secrets, w: World, move: Move): World {
    if CanMove(secrets, w, move) then Moved(secrets, w, move) else w
  }

  function WorldAfter(secrets: Secrets, start: Tables, moves: seq<Move>): World
    decreases |moves|
  {
    if moves == [] then World(start, map[])
    else NextWorld(secrets, WorldAfter(secrets, start, moves[..|moves| - 1]), moves[|moves| - 1])
  }

  ghost predicate BreaksAt(secrets: Secrets, start: Tables, moves: seq<Move>, i: nat)
    requires i < |moves|
  {
    var w := WorldAfter(secrets, start, moves[..i]);
    CanMove(secrets, w, moves[i]) && Breaks(secrets, w, moves[i])
  }

  lemma UnbrokenMove(secrets: Secrets, w: World, move: Move)
    requires Inv(w.db) && OpenOk(w) && (CanMove(secrets, w, move) ==> !Breaks(secrets, w, move))
    ensures Inv(NextWorld(secrets, w, move).db) && OpenOk(NextWorld(secrets, w, move))
  {
    if CanMove(secrets, w, move) {
      MoveKeepsInvExactly(secrets, w, move);
      MoveKeepsOpen(secrets, w, move);
    }
  }

  /** In every interleaving without such a move, every user keeps one live factor, enrolment in step and codes of one batch. */
  lemma {:induction false} OverlapsKeepInv(secrets: Secrets, start: Tables, moves: seq<Move>, n: nat)
    requires Inv(start) && n <= |moves| && forall i | 0 <= i < |moves| :: !BreaksAt(secrets, start, moves, i)
    ensures Inv(WorldAfter(secrets, start, moves[..n]).db) && OpenOk(WorldAfter(secrets, start, moves[..n]))
  {
    if n > 0 {
      OverlapsKeepInv(secrets, start, moves, n - 1);
      assert moves[..n][..n - 1] == moves[..n - 1];
      assert !BreaksAt(secrets, start, moves, n - 1);
      UnbrokenMove(secrets, WorldAfter(secrets, start, moves[..n - 1]), moves[n - 1]);
    }
  }

  // ---------------------------------------------------------------------------
  // Interleavings that leave a user out of order
  // ---------------------------------------------------------------------------

  lemma OneMove(secrets: Secrets, db: Tables, moves: seq<Move>, i: nat, before: World, after: World)
    requires i < |moves| && WorldAfter(secrets, db, moves[..i]) == before
    requires CanMove(secrets, before, moves[i]) && Moved(secrets, before, moves[i]) == after
    ensures WorldAfter(secrets, db, moves[..i + 1]) == after
    ensures i + 1 == |moves| ==> WorldAfter(secrets, db, moves) == after
  {
    assert moves[..i + 1][..i] == moves[..i];
    assert i + 1 == |moves| ==> moves[..i + 1] == moves;
  }

  /** A transaction as it stands after its first statement and after its second. */
  function Begun(caller: Caller, work: Work): Open {
    Open(caller, work, {}, 0, None, {})
  }

  function Looked(caller: Caller, work: Work, codes: set<Id>, waitsFor: set<Id>): Open {
    Open(caller, work, {}, 0, Some(codes), waitsFor)
  }

  lemma BeginsFirst(secrets: Secrets, db: Tables, caller: Caller, work: Work)
    requires caller.userId in db.users && MayBegin(secrets, db, caller, work) && !work.Activating?
    requires FactorsPicked(db, caller.userId, work) == {}
    ensures var (w, move) := (World(db, map[]), Begin(1, caller, work));
            CanMove(secrets, w, move) && Moved(secrets, w, move) == World(db, map[1 := Begun(caller, work)])
  {
    assert FactorHolders(World(db, map[]), {}) == {};
  }

  lemma LooksAlone(secrets: Secrets, db: Tables, caller: Caller, work: Work)
    ensures var (w, codes) := (World(db, map[1 := Begun(caller, work)]), LiveCodes(db, caller.userId));
            && CanMove(secrets, w, Look(1))
            && Moved(secrets, w, Look(1)) == World(db, map[1 := Looked(caller, work, codes, {})])
  {
    assert CodeHolders(World(db, map[1 := Begun(caller, work)]), LiveCodes(db, caller.userId)) == {};
  }

  lemma FinishesAlone(secrets: Secrets, db: Tables, o: Open)
    requires CanFinish(db, o) && o.waitsFor == {}
    ensures var w := World(db, map[1 := o]);
            CanMove(secrets, w, Finish(1)) && Moved(secrets, w, Finish(1)) == World(Finished(db, o), map[])
  {
    assert map[1 := o] - {1} == map[];
  }

  /** Two events come between the statements of a disabling that found no factor. */
  lemma DisablingRun(secrets: Secrets, db: Tables, caller: Caller, one: Tables, two: Tables, moves: seq<Move>)
    requires caller.userId in db.users && MayBegin(secrets, db, caller, Disabling)
    requires FactorsPicked(db, caller.userId, Disabling) == {}
    requires |moves| == 5 && moves[0] == Begin(1, caller, Disabling) && moves[3] == Look(1) && moves[4] == Finish(1)
    requires moves[1].Meanwhile? && moves[1].event.Call? && moves[1].event.caller.userId in db.users
    requires moves[2].Meanwhile? && moves[2].event.Call? && moves[2].event.caller.userId in one.users
    requires one == Occur(secrets, db, moves[1].event) && two == Occur(secrets, one, moves[2].event)
    ensures WorldAfter(secrets, db, moves).db == Finished(two, Looked(caller, Disabling, LiveCodes(two, caller.userId), {}))
  {
    var begun, looked := Begun(caller, Disabling), Looked(caller, Disabling, LiveCodes(two, caller.userId), {});
    assert moves[..0] == [];
    BeginsFirst(secrets, db, caller, Disabling);
    OneMove(secrets, db, moves, 0, World(db, map[]), World(db, map[1 := begun]));
    OneMove(secrets, db, moves, 1, World(db, map[1 := begun]), World(one, map[1 := begun]));
    OneMove(secrets, db, moves, 2, World(one, map[1 := begun]), World(two, map[1 := begun]));
    LooksAlone(secrets, two, caller, Disabling);
    OneMove(secrets, db, moves, 3, World(two, map[1 := begun]), World(two, map[1 := looked]));
    FinishesAlone(secrets, two, looked);
    OneMove(secrets, db, moves, 4, World(two, map[1 := looked]), World(Finished(two, looked), map[]));
  }

  /**
   A user without a factor, and a disabling on the strength of an earlier second factor. Its
   first statement finds no factor; then the user enrols; then it uses up the codes and ends.
   The new factor stays active although the user counts as not enrolled.
   */
  lemma EnrolmentDuringDisabling(
    secrets: Secrets, db: Tables, caller: Caller, enroller: Caller, f: Id, activate: Request, moves: seq<Move>)
    requires caller.userId in db.users && enroller.userId == caller.userId
    requires FactorsPicked(db, caller.userId, Disabling) == {} && MayBegin(secrets, db, caller, Disabling)
    requires activate.Activate? && f !in db.factors && OneLiveFactor(Apply(secrets, db, enroller, Setup(f)), caller.userId)
    requires Succeeds(secrets, Apply(secrets, db, enroller, Setup(f)), enroller, activate)
    requires |moves| == 5 && moves[0] == Begin(1, caller, Disabling) && moves[1] == Meanwhile(Call(enroller, Setup(f)))
    requires moves[2] == Meanwhile(Call(enroller, activate)) && moves[3] == Look(1) && moves[4] == Finish(1)
    ensures var after := WorldAfter(secrets, db, moves).db;
            && FactorsIn(after, caller.userId, Active) != {} && LiveCodes(after, caller.userId) == {}
            && caller.userId in after.users && !after.users[caller.userId].mfaEnrolled
            && !EnrolledExactly(after, caller.userId)
  {
    var pending := Apply(secrets, db, enroller, Setup(f));
    var active := Apply(secrets, pending, enroller, activate);
    SetupKeepsUsers(secrets, db, enroller, f);
    ActivateTakesEffect(secrets, pending, enroller, activate);
    DisablingRun(secrets, db, caller, pending, active, moves);
    UnseenFactorStays(active, Looked(caller, Disabling, LiveCodes(active, caller.userId), {}));
  }

  lemma SetupKeepsUsers(secrets: Secrets, db: Tables, caller: Caller, f: Id)
    ensures Apply(secrets, db, caller, Setup(f)).users == db.users
  {
  }

  /** A disabling that saw no factor leaves the active ones, and takes the codes and the enrolment. */
  lemma UnseenFactorStays(db: Tables, o: Open)
    requires o.work.Disabling? && o.factorsSeen == {} && CodesOf(o) == LiveCodes(db, o.caller.userId)
    requires o.caller.userId in db.users && FactorsIn(db, o.caller.userId, Active) != {}
    ensures var (user, after) := (o.caller.userId, Finished(db, o));
            && FactorsIn(after, user, Active) != {} && LiveCodes(after, user) == {}
            && user in after.users && !after.users[user].mfaEnrolled && !EnrolledExactly(after, user)
  {
    var (user, after) := (o.caller.userId, Finished(db, o));
    LiveAfter(db, o);
    var f :| f in FactorsIn(db, user, Active);
    assert f in FactorsIn(after, user, Active);
  }

  /** An event comes between the statements of a regeneration that found no codes. */
  lemma IssuingRun(secrets: Secrets, db: Tables, caller: Caller, work: Work, one: Tables, moves: seq<Move>)
    requires caller.userId in db.users && work.Issuing? && MayBegin(secrets, db, caller, work)
    requires LiveCodes(db, caller.userId) == {} && AreFresh(one, work.hashes)
    requires |moves| == 4 && moves[0] == Begin(1, caller, work) && moves[1] == Look(1) && moves[3] == Finish(1)
    requires moves[2].Meanwhile? && moves[2].event.Call? && moves[2].event.caller.userId in db.users
    requires one == Occur(secrets, db, moves[2].event)
    ensures WorldAfter(secrets, db, moves).db == Finished(one, Looked(caller, work, {}, {}))
  {
    var begun, looked := Begun(caller, work), Looked(caller, work, {}, {});
    assert moves[..0] == [];
    BeginsFirst(secrets, db, caller, work);
    OneMove(secrets, db, moves, 0, World(db, map[]), World(db, map[1 := begun]));
    LooksAlone(secrets, db, caller, work);
    OneMove(secrets, db, moves, 1, World(db, map[1 := begun]), World(db, map[1 := looked]));
    OneMove(secrets, db, moves, 2, World(db, map[1 := looked]), World(one, map[1 := looked]));
    FinishesAlone(secrets, one, looked);
    OneMove(secrets, db, moves, 3, World(one, map[1 := looked]), World(Finished(one, looked), map[]));
  }

  lemma MissedTenAndTen(db: Tables, o: Open, missed: set<Id>)
    requires o.work.Issuing? && AreFresh(db, o.work.hashes) && CodesOf(o) == {}
    requires LiveCodes(db, o.caller.userId) == missed && |missed| == RECOVERY_CODE_COUNT
    ensures var live := LiveCodes(Finished(db, o), o.caller.userId);
            live == missed + Elements(o.work.hashes) && |live| == 2 * RECOVERY_CODE_COUNT
  {
    LiveAfter(db, o);
    CountAfter(db, o);
    assert missed - {} == missed;
  }

  /** A regeneration that looked before an activation issued its codes leaves both batches: twenty live codes. */
  lemma ActivationDuringRegeneration(
    secrets: Secrets, db: Tables, caller: Caller, enroller: Caller, work: Work, activate: Request, moves: seq<Move>)
    requires caller.userId in db.users && enroller.userId == caller.userId && OneLiveFactor(db, caller.userId)
    requires work.Issuing? && MayBegin(secrets, db, caller, work) && LiveCodes(db, caller.userId) == {}
    requires activate.Activate? && Succeeds(secrets, db, enroller, activate)
    requires AreFresh(Apply(secrets, db, enroller, activate), work.hashes)
    requires |moves| == 4 && moves[0] == Begin(1, caller, work) && moves[1] == Look(1)
    requires moves[2] == Meanwhile(Call(enroller, activate)) && moves[3] == Finish(1)
    ensures var after := WorldAfter(secrets, db, moves).db;
            && LiveCodes(after, caller.userId) == Elements(activate.hashes) + Elements(work.hashes)
            && |LiveCodes(after, caller.userId)| == 2 * RECOVERY_CODE_COUNT
  {
    var active := Apply(secrets, db, enroller, activate);
    IssuingRun(secrets, db, caller, work, active, moves);
    ActivateTakesEffect(secrets, db, enroller, activate);
    NewAreOthers(db, caller.userId, activate.hashes);
    MissedTenAndTen(active, Looked(caller, work, {}, {}), Elements(activate.hashes));
  }

  // ---------------------------------------------------------------------------
  // Two regenerations at the same time
  // ---------------------------------------------------------------------------

  lemma TenAndTen(live: set<Id>, one: set<Id>, two: set<Id>, middle: set<Id>, last: set<Id>)
    requires one !! live && one !! two && |one| == RECOVERY_CODE_COUNT && |two| == RECOVERY_CODE_COUNT
    requires middle == (live - live) + one && last == (middle - live) + two
    ensures last == one + two && |last| == 2 * RECOVERY_CODE_COUNT
  {
    assert middle == one && middle - live == one;
    DisjointCount(one, two);
  }

  /** The second transaction finishes on what the first has left, having looked before. */
  lemma SecondAddsTen(db: Tables, first: Open, second: Open)
    requires first.work.Issuing? && second.work.Issuing? && first.caller.userId == second.caller.userId
    requires CodesOf(first) == LiveCodes(db, first.caller.userId) && CodesOf(second) == CodesOf(first)
    requires AreFresh(db, first.work.hashes) && AreFresh(db, second.work.hashes)
    requires Elements(first.work.hashes) !! Elements(second.work.hashes)
    ensures var last := LiveCodes(Finished(Finished(db, first), second), first.caller.userId);
            last == Elements(first.work.hashes) + Elements(second.work.hashes) && |last| == 2 * RECOVERY_CODE_COUNT
  {
    var (user, middle) := (first.caller.userId, Finished(db, first));
    LiveAfter(db, first);
    LiveAfter(middle, second);
    NewAreOthers(db, user, first.work.hashes);
    NewAreOthers(db, user, second.work.hashes);
    TenAndTen(LiveCodes(db, user), Elements(first.work.hashes), Elements(second.work.hashes),
              LiveCodes(middle, user), LiveCodes(Finished(middle, second), user));
  }

  lemma SecondIsFresh(db: Tables, o: Open, hashes: seq<Id>)
    requires o.work.Issuing? && AreFresh(db, hashes) && Elements(o.work.hashes) !! Elements(hashes)
    ensures AreFresh(Finished(db, o), hashes)
  {
    forall i | 0 <= i < |hashes| ensures hashes[i] !in Finished(db, o).codes {
      assert hashes[i] in Elements(hashes);
    }
  }

  function BothOpen(a: Open, b: Open): map<Id, Open> {
    map[1 := a, 2 := b]
  }

  lemma RemovingOne(a: Open, b: Open)
    ensures BothOpen(a, b) - {1} == map[2 := b] && (map[2 := b] - {2}).Keys == {}
    ensures BothOpen(a, b).Keys == {1, 2}
  {
  }

  lemma BothBegin(secrets: Secrets, db: Tables, caller: Caller, first: Work, second: Work, moves: seq<Move>)
    requires caller.userId in db.users && first.Issuing? && second.Issuing?
    requires MayBegin(secrets, db, caller, first) && MayBegin(secrets, db, caller, second)
    requires |moves| >= 2 && moves[0] == Begin(1, caller, first) && moves[1] == Begin(2, caller, second)
    ensures WorldAfter(secrets, db, moves[..2]) == World(db, BothOpen(Begun(caller, first), Begun(caller, second)))
  {
    var one := World(db, map[1 := Begun(caller, first)]);
    assert moves[..0] == [];
    BeginsFirst(secrets, db, caller, first);
    OneMove(secrets, db, moves, 0, World(db, map[]), one);
    assert FactorHolders(one, {}) == {};
    OneMove(secrets, db, moves, 1, one, World(db, BothOpen(Begun(caller, first), Begun(caller, second))));
  }

  lemma NobodyLooked(w: World, codes: set<Id>)
    requires forall tx | tx in w.open :: w.open[tx].codesSeen.None?
    ensures CodeHolders(w, codes) == {}
  {
  }

  lemma OnlyFirstLooked(w: World, codes: set<Id>)
    requires w.open.Keys == {1, 2} && w.open[2].codesSeen.None?
    ensures CodeHolders(w, codes) <= {1}
  {
  }

  lemma FirstLooks(secrets: Secrets, db: Tables, caller: Caller, first: Work, second: Work)
    ensures var (w, codes) := (World(db, BothOpen(Begun(caller, first), Begun(caller, second))), LiveCodes(db, caller.userId));
            && CanMove(secrets, w, Look(1))
            && Moved(secrets, w, Look(1)) == World(db, BothOpen(Looked(caller, first, codes, {}), Begun(caller, second)))
  {
    NobodyLooked(World(db, BothOpen(Begun(caller, first), Begun(caller, second))), LiveCodes(db, caller.userId));
  }

  lemma SecondLooks(secrets: Secrets, db: Tables, caller: Caller, a: Open, second: Work) returns (waits: set<Id>)
    ensures waits <= {1}
    ensures var (w, codes) := (World(db, BothOpen(a, Begun(caller, second))), LiveCodes(db, caller.userId));
            && CanMove(secrets, w, Look(2))
            && Moved(secrets, w, Look(2)) == World(db, BothOpen(a, Looked(caller, second, codes, waits)))
  {
    var (w, codes) := (World(db, BothOpen(a, Begun(caller, second))), LiveCodes(db, caller.userId));
    waits := CodeHolders(w, codes);
    OnlyFirstLooked(w, codes);
    assert Moved(secrets, w, Look(2)).open == BothOpen(a, Looked(caller, second, codes, waits));
  }

  lemma BothLook(secrets: Secrets, db: Tables, caller: Caller, first: Work, second: Work, moves: seq<Move>) returns (waits: set<Id>)
    requires |moves| >= 4 && moves[2] == Look(1) && moves[3] == Look(2)
    requires WorldAfter(secrets, db, moves[..2]) == World(db, BothOpen(Begun(caller, first), Begun(caller, second)))
    ensures waits <= {1}
    ensures var codes := LiveCodes(db, caller.userId);
            WorldAfter(secrets, db, moves[..4]) ==
              World(db, BothOpen(Looked(caller, first, codes, {}), Looked(caller, second, codes, waits)))
  {
    var a := Looked(caller, first, LiveCodes(db, caller.userId), {});
    var two := World(db, BothOpen(Begun(caller, first), Begun(caller, second)));
    var three := World(db, BothOpen(a, Begun(caller, second)));
    FirstLooks(secrets, db, caller, first, second);
    OneMove(secrets, db, moves, 2, two, three);
    waits := SecondLooks(secrets, db, caller, a, second);
    OneMove(secrets, db, moves, 3, three, Moved(secrets, three, Look(2)));
  }

  lemma BothFinish(secrets: Secrets, db: Tables, a: Open, b: Open, moves: seq<Move>)
    requires |moves| == 6 && moves[4] == Finish(1) && moves[5] == Finish(2)
    requires WorldAfter(secrets, db, moves[..4]) == World(db, BothOpen(a, b))
    requires a.work.Issuing? && b.work.Issuing? && a.waitsFor == {} && b.waitsFor <= {1}
    requires CanFinish(db, a) && CanFinish(Finished(db, a), b)
    ensures WorldAfter(secrets, db, moves).db == Finished(Finished(db, a), b)
  {
    RemovingOne(a, b);
    var two := World(db, BothOpen(a, b));
    var three := World(Finished(db, a), map[2 := b]);
    assert CanMove(secrets, two, Finish(1)) && Moved(secrets, two, Finish(1)) == three;
    OneMove(secrets, db, moves, 4, two, three);
    assert three.open.Keys == {2} && CanMove(secrets, three, Finish(2));
    OneMove(secrets, db, moves, 5, three, Moved(secrets, three, Finish(2)));
  }

  /** Both transactions look before either ends: twenty live codes, ten of each. */
  lemma OverlappingRegenerationsLeaveTwenty(
    secrets: Secrets, db: Tables, caller: Caller, first: Work, second: Work, moves: seq<Move>)
    requires caller.userId in db.users && first.Issuing? && second.Issuing?
    requires MayBegin(secrets, db, caller, first) && MayBegin(secrets, db, caller, second)
    requires AreFresh(db, first.hashes) && AreFresh(db, second.hashes) && Elements(first.hashes) !! Elements(second.hashes)
    requires |moves| == 6 && moves[0] == Begin(1, caller, first) && moves[1] == Begin(2, caller, second)
    requires moves[2] == Look(1) && moves[3] == Look(2) && moves[4] == Finish(1) && moves[5] == Finish(2)
    ensures var live := LiveCodes(WorldAfter(secrets, db, moves).db, caller.userId);
            live == Elements(first.hashes) + Elements(second.hashes) && |live| == 2 * RECOVERY_CODE_COUNT
  {
    BothBegin(secrets, db, caller, first, second, moves);
    var waits := BothLook(secrets, db, caller, first, second, moves);
    var codes := LiveCodes(db, caller.userId);
    var (a, b) := (Looked(caller, first, codes, {}), Looked(caller, second, codes, waits));
    SecondIsFresh(db, a, second.hashes);
    SecondAddsTen(db, a, b);
    BothFinish(secrets, db, a, b, moves);
  }
}
