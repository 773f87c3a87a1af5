/**
 Refreshes that overlap in time. Each takes the locks on its token and its session,
 reads both rows, and only later writes and commits or gives up; meanwhile other
 transactions write other sessions. Every such interleaving comes to the same tables as
 carrying out each refresh at once, at the moment it commits.
 */
module SessionLocks {
  import opened Bytes
  import opened Sessions
  import opened SessionRuns

  /** An open refresh: the rows as read under the locks, and the time it took before it began. */
  datatype Open = Open(row: Lookup, now: int)

  /** The committed tables and the open refreshes, by transaction. */
  datatype World = World(db: Db, open: map<Id, Open>)

  datatype Move =
    | Lock(tx: Id, tokenId: Id, now: int, userIsActive: bool)
    | Commit(tx: Id, nextId: Id)
    | Abort(tx: Id)
    | Elsewhere(step: Step)

  function SessionOf(o: Open): Id {
    o.row.token.sessionId
  }

  /** The session rows that an operation other than a refresh updates; it waits for their locks. */
  function Updates(config: Config, db: Db, step: Step): set<Id> {
    match step
    case Issue(_, _, _, _, _, _, evicted) => evicted
    case Revoke(ids) => ids
    case RevokeUser(user, spared) => set s | s in db.sessions && db.sessions[s].userId == user && spared != Some(s)
    case MarkMfaVerified(s) => {s}
    case Refresh(_, _, _, _) => {}
    case Tick(_) => {}
  }

  predicate CanMove(config: Config, w: World, move: Move) {
    match move
    case Lock(tx, tokenId, now, _) =>
      && tx !in w.open && IsKnown(w.db, tokenId)
      && forall other | other in w.open :: SessionOf(w.open[other]) != w.db.tokens[tokenId].sessionId
    case Commit(tx, _) => tx in w.open
    case Abort(tx) => tx in w.open
    case Elsewhere(step) =>
      !step.Refresh? && forall tx | tx in w.open :: SessionOf(w.open[tx]) !in Updates(config, w.db, step)
  }

  function Moved(config: Config, w: World, move: Move): World
    requires CanMove(config, w, move)
  {
    match move
    case Lock(tx, tokenId, now, userIsActive) =>
      w.(open := w.open[tx := Open(LookUp(w.db, tokenId, userIsActive), now)])
    case Commit(tx, nextId) =>
      World(FinishRefresh(config, w.db, w.open[tx].row, w.open[tx].now, nextId), w.open - {tx})
    case Abort(tx) => w.(open := w.open - {tx})
    case Elsewhere(step) => w.(db := Next(config, w.db, step))
  }

  /** What an open refresh has read is still so. */
  ghost predicate IsCurrent(db: Db, o: Open) {
    && o.row.tokenId in db.tokens && db.tokens[o.row.tokenId] == o.row.token
    && SessionOf(o) in db.sessions && db.sessions[SessionOf(o)] == o.row.session
  }

  ghost predicate LocksHold(w: World) {
    && (forall tx | tx in w.open :: IsCurrent(w.db, w.open[tx]))
    && (forall a, b | a in w.open && b in w.open && a != b :: SessionOf(w.open[a]) != SessionOf(w.open[b]))
  }

  lemma FinishKeepsOthers(config: Config, db: Db, mine: Open, other: Open, nextId: Id)
    requires IsCurrent(db, mine) && IsCurrent(db, other) && SessionOf(mine) != SessionOf(other)
    ensures IsCurrent(FinishRefresh(config, db, mine.row, mine.now, nextId), other)
  {
  }

  lemma ElsewhereKeepsOpen(config: Config, db: Db, step: Step, o: Open)
    requires IsCurrent(db, o) && !step.Refresh? && SessionOf(o) !in Updates(config, db, step)
    ensures IsCurrent(Next(config, db, step), o)
  {
  }

  lemma MoveKeepsLocks(config: Config, w: World, move: Move)
    requires LocksHold(w) && CanMove(config, w, move)
    ensures LocksHold(Moved(config, w, move))
  {
    var v := Moved(config, w, move);
    forall tx | tx in v.open ensures IsCurrent(v.db, v.open[tx]) {
      assert tx in w.open ==> IsCurrent(w.db, w.open[tx]);
      match move
      case Commit(mine, nextId) => FinishKeepsOthers(config, w.db, w.open[mine], w.open[tx], nextId);
      case Elsewhere(step) => ElsewhereKeepsOpen(config, w.db, step, w.open[tx]);
      case _ =>
    }
  }

  /** The operation a move stands for; taking and giving up locks changes nothing. */
  function AsStep(w: World, move: Move): Step {
    match move
    case Commit(tx, nextId) =>
      if tx in w.open then Refresh(w.open[tx].row.tokenId, w.open[tx].now, w.open[tx].row.userIsActive, nextId) else Tick(w.db.clock)
    case Elsewhere(step) => step
    case _ => Tick(w.db.clock)
  }

  /** A refresh that commits does what it would have done at once, then. */
  lemma MoveIsStep(config: Config, w: World, move: Move)
    requires LocksHold(w) && CanMove(config, w, move)
    ensures Moved(config, w, move).db == Next(config, w.db, AsStep(w, move))
  {
    if move.Commit? {
      var o := w.open[move.tx];
      assert IsCurrent(w.db, o);
      assert LookUp(w.db, o.row.tokenId, o.row.userIsActive) == o.row;
    }
  }

  // ---------------------------------------------------------------------------
  // Runs
  // ---------------------------------------------------------------------------

  /** The state after the moves; a move that is not possible does not happen. */
  function WorldAfter(config: Config, clock: int, moves: seq<Move>): World
    decreases |moves|
  {
    if moves == [] then World(Start(clock).db, map[])
    else
      var w := WorldAfter(config, clock, moves[..|moves| - 1]);
      if CanMove(config, w, moves[|moves| - 1]) then Moved(config, w, moves[|moves| - 1]) else w
  }

  /** The operation that move number `i` stands for. */
  function StepAt(config: Config, clock: int, moves: seq<Move>, i: nat): Step
    requires i < |moves|
  {
    var w := WorldAfter(config, clock, moves[..i]);
    if CanMove(config, w, moves[i]) then AsStep(w, moves[i]) else Tick(w.db.clock)
  }

  function StepsOf(config: Config, clock: int, moves: seq<Move>): (steps: seq<Step>)
    ensures |steps| == |moves|
  {
    seq(|moves|, i requires 0 <= i < |moves| => StepAt(config, clock, moves, i))
  }

  lemma StepsOfPrefix(config: Config, clock: int, moves: seq<Move>, n: nat)
    requires n <= |moves|
    ensures StepsOf(config, clock, moves[..n]) == StepsOf(config, clock, moves)[..n]
  {
    forall i | 0 <= i < n ensures StepAt(config, clock, moves[..n], i) == StepAt(config, clock, moves, i) {
      assert moves[..n][..i] == moves[..i];
    }
  }

  lemma {:induction false} LocksAlwaysHold(config: Config, clock: int, moves: seq<Move>)
    ensures LocksHold(WorldAfter(config, clock, moves))
    decreases |moves|
  {
    if moves != [] {
      var before := moves[..|moves| - 1];
      LocksAlwaysHold(config, clock, before);
      var w := WorldAfter(config, clock, before);
      if CanMove(config, w, moves[|moves| - 1]) {
        MoveKeepsLocks(config, w, moves[|moves| - 1]);
      }
    }
  }

  /** Every interleaving leads to the tables that a run of whole operations leads to. */
  lemma {:induction false} InterleavingIsRun(config: Config, clock: int, moves: seq<Move>)
    ensures WorldAfter(config, clock, moves).db == After(config, clock, StepsOf(config, clock, moves)).db
    decreases |moves|
  {
    if moves != [] {
      var n := |moves| - 1;
      InterleavingIsRun(config, clock, moves[..n]);
      LocksAlwaysHold(config, clock, moves[..n]);
      StepsOfPrefix(config, clock, moves, n);
      AfterNext(config, clock, StepsOf(config, clock, moves));
      var w := WorldAfter(config, clock, moves[..n]);
      if CanMove(config, w, moves[n]) {
        MoveIsStep(config, w, moves[n]);
      }
    }
  }

  /** Move `i` commits a refresh that exchanges token `t`. */
  predicate CommitsRotation(config: Config, clock: int, moves: seq<Move>, i: nat, t: Id)
    requires i < |moves|
  {
    var step := StepAt(config, clock, moves, i);
    step.Refresh? && step.tokenId == t && IsRotating(WorldAfter(config, clock, moves[..i]).db, step)
  }

  /** Of refreshes presenting the same token, however they overlap, at most one exchanges it. */
  lemma InterleavedRotatesAtMostOnce(config: Config, clock: int, moves: seq<Move>, i: nat, j: nat, t: Id)
    requires i < j < |moves|
    requires CommitsRotation(config, clock, moves, i, t)
    ensures !CommitsRotation(config, clock, moves, j, t)
  {
    var steps := StepsOf(config, clock, moves);
    StepsOfPrefix(config, clock, moves, i);
    StepsOfPrefix(config, clock, moves, j);
    InterleavingIsRun(config, clock, moves[..i]);
    InterleavingIsRun(config, clock, moves[..j]);
    if steps[j].Refresh? && steps[j].tokenId == t {
      RotatesAtMostOnce(config, clock, steps, i, j);
    }
  }
}
