/**
 Creating the system owner: attempts that overlap in time and may be cut off at any
 point, an advisory lock, and a row read again under a row lock.
 */
module Bootstrap {
  import opened Bytes

  type Id = nat

  /**
   The committed tables: the singleton state row, if it is there, with the time of
   initialisation, if any; the ownership rows, which are not limited to one here; and
   the users.
   */
  datatype Tables = Tables(state: Option<Option<int>>, owners: seq<Id>, users: set<Id>)

  /** How far an attempt has come. From `Checked` on it holds the row lock and its writes are its own. */
  datatype Phase =
    | Waiting
    | Locked
    | Checked
    | UserInserted(userId: Id)
    | OwnerInserted(userId: Id)
    | Stamped(userId: Id, at: int)
    | Ended

  datatype World = World(db: Tables, attempts: map<Id, Phase>, advisory: Option<Id>, row: Option<Id>)

  datatype Move =
    | Begin(a: Id)
    | TakeAdvisoryLock(a: Id)
    | ReadState(a: Id)
    | InsertUser(a: Id, userId: Id)
    | InsertOwner(a: Id)
    | Stamp(a: Id, now: int)
    | Commit(a: Id)
    | Abort(a: Id)

  function PhaseOf(w: World, a: Id): Phase {
    if a in w.attempts then w.attempts[a] else Ended
  }

  function Released(holder: Option<Id>, a: Id): Option<Id> {
    if holder == Some(a) then None else holder
  }

  /** The end of a transaction, by commit or rollback, gives back both locks. */
  function EndOf(w: World, a: Id): World {
    World(w.db, w.attempts[a := Ended], Released(w.advisory, a), Released(w.row, a))
  }

  /** With `guarded` false the advisory lock is left out: the row lock has to do alone. */
  function Moved(guarded: bool, w: World, move: Move): World {
    var a := move.a;
    match (move, PhaseOf(w, a))
    case (Begin(_), _) => if a in w.attempts then w else w.(attempts := w.attempts[a := Waiting])
    case (TakeAdvisoryLock(_), Waiting) =>
      if !guarded then w.(attempts := w.attempts[a := Locked])
      else if w.advisory.None? then w.(attempts := w.attempts[a := Locked], advisory := Some(a))
      else w
    case (ReadState(_), Locked) =>
      if w.row.Some? then w
      else if w.db.state == Some(None) then w.(attempts := w.attempts[a := Checked], row := Some(a))
      else EndOf(w, a)
    case (InsertUser(_, userId), Checked) =>
      if userId in w.db.users then EndOf(w, a) else w.(attempts := w.attempts[a := UserInserted(userId)])
    case (InsertOwner(_), UserInserted(userId)) => w.(attempts := w.attempts[a := OwnerInserted(userId)])
    case (Stamp(_, now), OwnerInserted(userId)) =>
      if w.db.state == Some(None) then w.(attempts := w.attempts[a := Stamped(userId, now)]) else EndOf(w, a)
    case (Commit(_), Stamped(userId, at)) =>
      EndOf(w.(db := Tables(Some(Some(at)), w.db.owners + [userId], w.db.users + {userId})), a)
    case (Abort(_), _) => if a in w.attempts then EndOf(w, a) else w
    case _ => w
  }

  function After(guarded: bool, start: World, moves: seq<Move>): World
    decreases |moves|
  {
    if moves == [] then start
    else Moved(guarded, After(guarded, start, moves[..|moves| - 1]), moves[|moves| - 1])
  }

  /** A fresh installation, or one whose state row is missing. */
  function Fresh(present: bool, users: set<Id>): World {
    World(Tables(if present then Some(None) else None, [], users), map[], None, None)
  }

  // ---------------------------------------------------------------------------
  // What every state keeps
  // ---------------------------------------------------------------------------

  predicate HasRow(phase: Phase) {
    phase.Checked? || phase.UserInserted? || phase.OwnerInserted? || phase.Stamped?
  }

  /** Initialised means owned, by one user who exists. */
  ghost predicate OwnedOnce(db: Tables) {
    && (db.state.Some? && db.state.value.Some? <==> |db.owners| == 1)
    && |db.owners| <= 1
    && forall o | o in db.owners :: o in db.users
  }

  ghost predicate LocksOk(w: World) {
    && (forall a: Id :: w.row == Some(a) <==> HasRow(PhaseOf(w, a)))
    && (forall a: Id | w.advisory == Some(a) :: HasRow(PhaseOf(w, a)) || PhaseOf(w, a).Locked?)
    && (w.row.Some? ==> w.db.state == Some(None))
  }

  lemma MoveKeepsOwnedOnce(guarded: bool, w: World, move: Move)
    requires OwnedOnce(w.db) && LocksOk(w)
    ensures OwnedOnce(Moved(guarded, w, move).db) && LocksOk(Moved(guarded, w, move))
  {
    var (a, v) := (move.a, Moved(guarded, w, move));
    assert w.row == Some(a) <==> HasRow(PhaseOf(w, a));
    forall b: Id ensures v.row == Some(b) <==> HasRow(PhaseOf(v, b)) {
      assert w.row == Some(b) <==> HasRow(PhaseOf(w, b));
    }
  }

  /**
   However many attempts overlap and wherever they are cut off, at most one owner is ever
   committed, and the system counts as initialised exactly when it has one. The row lock
   alone is enough for that, with or without the advisory lock.
   */
  lemma {:induction false} AtMostOneOwner(guarded: bool, present: bool, users: set<Id>, moves: seq<Move>)
    ensures var w := After(guarded, Fresh(present, users), moves);
            OwnedOnce(w.db) && LocksOk(w) && |w.db.owners| <= 1
    decreases |moves|
  {
    if moves != [] {
      AtMostOneOwner(guarded, present, users, moves[..|moves| - 1]);
      MoveKeepsOwnedOnce(guarded, After(guarded, Fresh(present, users), moves[..|moves| - 1]), moves[|moves| - 1]);
    }
  }

  /** An attempt that has ended holds neither lock. */
  lemma EndedHoldsNothing(guarded: bool, present: bool, users: set<Id>, moves: seq<Move>, a: Id)
    requires PhaseOf(After(guarded, Fresh(present, users), moves), a).Ended?
    ensures var w := After(guarded, Fresh(present, users), moves); w.advisory != Some(a) && w.row != Some(a)
  {
    AtMostOneOwner(guarded, present, users, moves);
    assert LocksOk(After(guarded, Fresh(present, users), moves));
  }

  lemma OwnerStaysStep(guarded: bool, w: World, move: Move)
    requires LocksOk(w) && OwnedOnce(w.db) && w.db.owners != []
    ensures Moved(guarded, w, move).db == w.db
  {
  }

  /** Once there is an owner, nothing that follows changes who it is or when the system was initialised. */
  lemma {:induction false} OwnerIsForGood(guarded: bool, present: bool, users: set<Id>, moves: seq<Move>, i: nat)
    requires i <= |moves| && After(guarded, Fresh(present, users), moves[..i]).db.owners != []
    ensures After(guarded, Fresh(present, users), moves).db == After(guarded, Fresh(present, users), moves[..i]).db
    decreases |moves|
  {
    if i == |moves| {
      assert moves[..i] == moves;
    } else {
      var before := moves[..|moves| - 1];
      assert before[..i] == moves[..i];
      OwnerIsForGood(guarded, present, users, before, i);
      AtMostOneOwner(guarded, present, users, before);
      OwnerStaysStep(guarded, After(guarded, Fresh(present, users), before), moves[|moves| - 1]);
    }
  }

  // ---------------------------------------------------------------------------
  // One attempt by itself
  // ---------------------------------------------------------------------------

  function Alone(guarded: bool, w: World, a: Id, userId: Id, now: int): World {
    var locked := Moved(guarded, Moved(guarded, w, Begin(a)), TakeAdvisoryLock(a));
    var checked := Moved(guarded, locked, ReadState(a));
    var inserted := Moved(guarded, Moved(guarded, checked, InsertUser(a, userId)), InsertOwner(a));
    Moved(guarded, Moved(guarded, inserted, Stamp(a, now)), Commit(a))
  }

  datatype Reply = Created | AlreadyInitialized | UniqueViolation | InternalError

  lemma EndedFreesLocks(w: World)
    requires LocksOk(w) && forall b | b in w.attempts :: w.attempts[b].Ended?
    ensures w.row.None? && w.advisory.None?
  {
  }

  lemma AloneIsAnswered(guarded: bool, w: World, a: Id, userId: Id, now: int)
    requires a !in w.attempts && w.row.None? && w.advisory.None?
    ensures var v := Alone(guarded, w, a, userId, now);
            && (if w.db.state == Some(None) && userId !in w.db.users
                then v.db == Tables(Some(Some(now)), w.db.owners + [userId], w.db.users + {userId})
                else v.db == w.db)
            && v.advisory.None? && v.row.None?
  {
    var locked := Moved(guarded, Moved(guarded, w, Begin(a)), TakeAdvisoryLock(a));
    assert PhaseOf(locked, a) == Locked && locked.db == w.db && locked.row.None?;
    var checked := Moved(guarded, locked, ReadState(a));
    assert checked.db == w.db && (w.db.state == Some(None) ==> PhaseOf(checked, a) == Checked);
    assert w.db.state != Some(None) ==> PhaseOf(checked, a) == Ended;
  }

  /**
   Whatever was cut off before, an attempt that meets no other one in progress is
   answered as if it were the first: the locks of the others are gone.
   */
  lemma NextAttemptIsNotBlocked(guarded: bool, present: bool, users: set<Id>, moves: seq<Move>, a: Id, userId: Id, now: int)
    requires var w := After(guarded, Fresh(present, users), moves);
             a !in w.attempts && forall b | b in w.attempts :: w.attempts[b].Ended?
    ensures var w := After(guarded, Fresh(present, users), moves);
            var v := Alone(guarded, w, a, userId, now);
            && (if w.db.state == Some(None) && userId !in w.db.users
                then v.db == Tables(Some(Some(now)), w.db.owners + [userId], w.db.users + {userId})
                else v.db == w.db)
            && v.advisory.None? && v.row.None?
  {
    var w := After(guarded, Fresh(present, users), moves);
    AtMostOneOwner(guarded, present, users, moves);
    EndedFreesLocks(w);
    AloneIsAnswered(guarded, w, a, userId, now);
  }

  /** The transaction, statement by statement. */
  class System {
    var state: Option<Option<int>>
    var owners: seq<Id>
    var users: set<Id>

    function Contents(): Tables
      reads this
    {
      Tables(state, owners, users)
    }

    constructor (db: Tables)
      ensures Contents() == db
    {
      state, owners, users := db.state, db.owners, db.users;
    }

    method CreateRoot(userId: Id, now: int) returns (reply: Reply)
      modifies this
      ensures reply.InternalError? <==> old(state).None?
      ensures reply.AlreadyInitialized? <==> old(state).Some? && old(state).value.Some?
      ensures reply.UniqueViolation? <==> old(state) == Some(None) && userId in old(users)
      ensures Contents() == if reply.Created? then Tables(Some(Some(now)), old(owners) + [userId], old(users) + {userId})
                            else old(Contents())
      ensures OwnedOnce(old(Contents())) ==> OwnedOnce(Contents())
    {
      if state.None? {
        return InternalError;
      }
      if state.value.Some? {
        return AlreadyInitialized;
      }
      if userId in users {
        return UniqueViolation;
      }
      users := users + {userId};
      owners := owners + [userId];
      state := Some(Some(now));
      reply := Created;
    }
  }
}
