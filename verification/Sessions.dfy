/**
 Sessions and their refresh tokens: lifetimes under an immovable ceiling, rotation with
 reuse detection, and the per-user cap.
 */
module Sessions {
  import opened Bytes

  type Id = nat

  /** Durations and instants are microseconds; `latest` is the last instant that can be represented. */
  datatype Config = Config(accessTtl: nat, idleTtl: nat, refreshTtl: nat, absoluteTtl: nat, maxPerUser: nat, latest: int)

  /** The instant used when adding a duration overflows: the end of 32-bit time. */
  const FALLBACK: int := 0x7FFF_FFFF * 1_000_000

  const MAX_GENERATION: int := 0x7FFF_FFFF

  datatype Lifetimes = Lifetimes(accessExpiresAt: int, idleExpiresAt: int, absoluteExpiresAt: int)

  datatype Session = Session(
    userId: Id,
    createdAt: int,
    accessExpiresAt: int,
    idleExpiresAt: int,
    absoluteExpiresAt: int,
    pendingMfa: bool,
    revokedAt: Option<int>)

  datatype Token = Token(sessionId: Id, generation: int, expiresAt: int, consumedAt: Option<int>, replacedBy: Option<Id>)

  /** The tables and the database clock. */
  datatype Db = Db(sessions: map<Id, Session>, tokens: map<Id, Token>, clock: int)

  // ---------------------------------------------------------------------------
  // Lifetimes
  // ---------------------------------------------------------------------------

  function Min(a: int, b: int): int {
    if a <= b then a else b
  }

  function Advance(config: Config, now: int, ttl: nat): int {
    if now + ttl <= config.latest then now + ttl else FALLBACK
  }

  function RefreshedLifetimes(config: Config, now: int, ceiling: int): Lifetimes {
    Lifetimes(Min(Advance(config, now, config.accessTtl), ceiling), Min(Advance(config, now, config.idleTtl), ceiling), ceiling)
  }

  function NewLifetimes(config: Config, now: int): Lifetimes {
    RefreshedLifetimes(config, now, Advance(config, now, config.absoluteTtl))
  }

  function RefreshExpiry(config: Config, now: int, ceiling: int): int {
    Min(Advance(config, now, config.refreshTtl), ceiling)
  }

  // ---------------------------------------------------------------------------
  // The cap
  // ---------------------------------------------------------------------------

  predicate IsLive(s: Session, clock: int) {
    s.revokedAt.None? && s.absoluteExpiresAt > clock && s.idleExpiresAt > clock
  }

  /** The sessions of a user that are live at a time. */
  function LiveAt(db: Db, user: Id, clock: int): set<Id> {
    set s | s in db.sessions && db.sessions[s].userId == user && IsLive(db.sessions[s], clock)
  }

  function LiveOf(db: Db, user: Id): set<Id> {
    LiveAt(db, user, db.clock)
  }

  /** How many of the live sessions must go before one more is created; a cap of 0 is none. */
  function Surplus(live: nat, max: nat): nat {
    if max == 0 || live + 1 <= max then 0 else live + 1 - max
  }

  predicate Older(sessions: map<Id, Session>, a: Id, b: Id)
    requires a in sessions && b in sessions
  {
    sessions[a].createdAt < sessions[b].createdAt || (sessions[a].createdAt == sessions[b].createdAt && a < b)
  }

  function OlderThan(sessions: map<Id, Session>, live: set<Id>, s: Id): set<Id>
    requires s in sessions && forall x | x in live :: x in sessions
  {
    set x | x in live && Older(sessions, x, s)
  }

  /** The first `n` of the sessions by creation time and id. */
  function Oldest(sessions: map<Id, Session>, live: set<Id>, n: nat): set<Id>
    requires forall x | x in live :: x in sessions
  {
    set s | s in live && |OlderThan(sessions, live, s)| < n
  }

  ghost predicate IsYoungest(sessions: map<Id, Session>, live: set<Id>, y: Id) {
    && y in live && (forall x | x in live :: x in sessions)
    && forall x | x in live && x != y :: Older(sessions, x, y)
  }

  lemma {:induction false} HasYoungest(sessions: map<Id, Session>, live: set<Id>) returns (y: Id)
    requires live != {} && forall x | x in live :: x in sessions
    ensures IsYoungest(sessions, live, y)
  {
    var first :| first in live;
    y := first;
    if live != {first} {
      var z := HasYoungest(sessions, live - {first});
      assert forall x | x in live && x != first && x != z :: x in live - {first} && Older(sessions, x, z);
      if Older(sessions, first, z) {
        y := z;
      }
    }
  }

  lemma WithoutYoungest(sessions: map<Id, Session>, live: set<Id>, n: nat, y: Id)
    requires IsYoungest(sessions, live, y)
    ensures Oldest(sessions, live, n) == Oldest(sessions, live - {y}, n) + if |live - {y}| < n then {y} else {}
  {
    var rest := live - {y};
    assert OlderThan(sessions, live, y) == rest;
    forall x | x in rest ensures OlderThan(sessions, live, x) == OlderThan(sessions, rest, x) {
    }
  }

  lemma {:induction false} OldestIsAll(sessions: map<Id, Session>, live: set<Id>, n: nat)
    requires (forall x | x in live :: x in sessions) && |live| <= n
    ensures Oldest(sessions, live, n) == live
    decreases |live|
  {
    if live != {} {
      var y := HasYoungest(sessions, live);
      WithoutYoungest(sessions, live, n, y);
      OldestIsAll(sessions, live - {y}, n);
    }
  }

  /** The oldest `n` are `n` sessions, or all if there are not so many. */
  lemma {:induction false} OldestCount(sessions: map<Id, Session>, live: set<Id>, n: nat)
    requires forall x | x in live :: x in sessions
    ensures |Oldest(sessions, live, n)| == if n < |live| then n else |live|
    decreases |live|
  {
    if |live| <= n {
      OldestIsAll(sessions, live, n);
    } else {
      var y := HasYoungest(sessions, live);
      WithoutYoungest(sessions, live, n, y);
      OldestCount(sessions, live - {y}, n);
    }
  }

  /** They are older than every session that stays. */
  lemma OldestAreOlder(sessions: map<Id, Session>, live: set<Id>, n: nat, a: Id, b: Id)
    requires forall x | x in live :: x in sessions
    requires a in Oldest(sessions, live, n) && b in live && b !in Oldest(sessions, live, n)
    ensures Older(sessions, a, b)
  {
    if a == b || Older(sessions, b, a) {
      assert OlderThan(sessions, live, b) <= OlderThan(sessions, live, a);
      SubsetCount(OlderThan(sessions, live, b), OlderThan(sessions, live, a));
    }
  }

  lemma SubsetCount(a: set<Id>, b: set<Id>)
    requires a <= b
    ensures |a| <= |b|
  {
    assert |b| == |a| + |b - a| by {
      assert b == a + (b - a);
    }
  }

  // ---------------------------------------------------------------------------
  // Statements and operations
  // ---------------------------------------------------------------------------

  function RevokeSet(db: Db, gone: set<Id>): Db {
    db.(sessions := map s | s in db.sessions ::
          if s in gone && db.sessions[s].revokedAt.None? then db.sessions[s].(revokedAt := Some(db.clock)) else db.sessions[s])
  }

  function ConsumeFamily(db: Db, sessionId: Id): Db {
    db.(tokens := map t | t in db.tokens ::
          if db.tokens[t].sessionId == sessionId && db.tokens[t].consumedAt.None?
          then db.tokens[t].(consumedAt := Some(db.clock)) else db.tokens[t])
  }

  /**
   The sessions a login picks to make room: one query counts the live ones, another takes
   the oldest. Both go by the time the transaction began, and lock nothing.
   */
  function Picked(config: Config, counted: Db, listed: Db, user: Id, clock: int): set<Id> {
    Oldest(listed.sessions, LiveAt(listed, user, clock), Surplus(|LiveAt(counted, user, clock)|, config.maxPerUser))
  }

  /** What a login picks if it writes in the state it has read. */
  function EvictedBy(config: Config, db: Db, user: Id): set<Id> {
    Picked(config, db, db, user, db.clock)
  }

  /**
   The writes of a login that has picked `evicted`, perhaps in an earlier state: revoke them,
   insert the session and its first refresh token. Ids are primary keys.
   */
  function IssueSession(
    config: Config, db: Db, user: Id, sessionId: Id, tokenId: Id, pendingMfa: bool, now: int, createdAt: int, evicted: set<Id>): Db
  {
    if sessionId in db.sessions || tokenId in db.tokens then db
    else
      var lifetimes := NewLifetimes(config, now);
      var revoked := RevokeSet(db, evicted);
      var session := Session(
        user, createdAt, lifetimes.accessExpiresAt, lifetimes.idleExpiresAt, lifetimes.absoluteExpiresAt, pendingMfa, None);
      revoked.(sessions := revoked.sessions[sessionId := session],
               tokens := revoked.tokens[tokenId := Token(sessionId, 0, RefreshExpiry(config, now, lifetimes.absoluteExpiresAt), None, None)])
  }

  datatype RefreshVerdict = Rotate | ReuseDetected | Rejected

  /** The presented token, its session and its user, as read under the row locks. */
  datatype Lookup = Lookup(tokenId: Id, token: Token, session: Session, userIsActive: bool)

  function LookUp(db: Db, tokenId: Id, userIsActive: bool): Lookup
    requires tokenId in db.tokens && db.tokens[tokenId].sessionId in db.sessions
  {
    Lookup(tokenId, db.tokens[tokenId], db.sessions[db.tokens[tokenId].sessionId], userIsActive)
  }

  function Classify(row: Lookup, now: int): RefreshVerdict {
    if row.token.consumedAt.Some? then ReuseDetected
    else if row.session.revokedAt.Some? || !row.userIsActive || row.token.expiresAt <= now
            || row.session.absoluteExpiresAt <= now || row.session.idleExpiresAt <= now then Rejected
    else Rotate
  }

  /** Each statement of the rotation changes a row; one that changes none rolls everything back. */
  predicate CanRotate(db: Db, row: Lookup, nextId: Id) {
    && row.tokenId in db.tokens && db.tokens[row.tokenId].consumedAt.None?
    && row.token.generation < MAX_GENERATION && nextId !in db.tokens
    && row.token.sessionId in db.sessions && db.sessions[row.token.sessionId].revokedAt.None?
  }

  function RotateRows(config: Config, db: Db, row: Lookup, now: int, nextId: Id): Db {
    if !CanRotate(db, row, nextId) then db
    else
      var sessionId, ceiling := row.token.sessionId, row.session.absoluteExpiresAt;
      var lifetimes := RefreshedLifetimes(config, now, ceiling);
      var next := Token(sessionId, row.token.generation + 1, RefreshExpiry(config, now, ceiling), None, None);
      var used := db.tokens[row.tokenId].(consumedAt := Some(db.clock), replacedBy := Some(nextId));
      db.(tokens := db.tokens[nextId := next][row.tokenId := used],
          sessions := db.sessions[sessionId := db.sessions[sessionId].(
            accessExpiresAt := lifetimes.accessExpiresAt, idleExpiresAt := lifetimes.idleExpiresAt)])
  }

  /** What a refresh writes, going by the row it read when it took the locks. */
  function FinishRefresh(config: Config, db: Db, row: Lookup, now: int, nextId: Id): Db {
    match Classify(row, now)
    case ReuseDetected => ConsumeFamily(RevokeSet(db, {row.token.sessionId}), row.token.sessionId)
    case Rejected => db
    case Rotate => RotateRows(config, db, row, now, nextId)
  }

  function MarkVerified(db: Db, s: Id): Db {
    if s in db.sessions && db.sessions[s].revokedAt.None?
    then db.(sessions := db.sessions[s := db.sessions[s].(pendingMfa := false)]) else db
  }

  datatype Step =
    | Issue(userId: Id, sessionId: Id, firstTokenId: Id, pendingMfa: bool, issuedAt: int, createdAt: int, evicted: set<Id>)
    | Refresh(tokenId: Id, now: int, userIsActive: bool, nextId: Id)
    | Revoke(sessionIds: set<Id>)
    | RevokeUser(userId: Id, spared: Option<Id>)
    | MarkMfaVerified(sessionId: Id)
    | Tick(clock: int)

  function Next(config: Config, db: Db, step: Step): Db {
    match step
    case Issue(user, sessionId, tokenId, pendingMfa, now, createdAt, evicted) =>
      IssueSession(config, db, user, sessionId, tokenId, pendingMfa, now, createdAt, evicted)
    case Refresh(tokenId, now, userIsActive, nextId) =>
      if tokenId !in db.tokens || db.tokens[tokenId].sessionId !in db.sessions then db
      else FinishRefresh(config, db, LookUp(db, tokenId, userIsActive), now, nextId)
    case Revoke(ids) => RevokeSet(db, ids)
    case RevokeUser(user, spared) =>
      RevokeSet(db, set s | s in db.sessions && db.sessions[s].userId == user && spared != Some(s))
    case MarkMfaVerified(s) => MarkVerified(db, s)
    case Tick(clock) => if clock >= db.clock then db.(clock := clock) else db
  }

  // ---------------------------------------------------------------------------
  // The tables, updated statement by statement
  // ---------------------------------------------------------------------------

  datatype Reply = Issued(expiresIn: int) | AuthenticationFailed | UniqueViolation | InternalError

  class Store {
    var sessions: map<Id, Session>
    var tokens: map<Id, Token>
    var clock: int

    function Contents(): Db
      reads this
    {
      Db(sessions, tokens, clock)
    }

    constructor (db: Db)
      ensures Contents() == db
    {
      sessions, tokens, clock := db.sessions, db.tokens, db.clock;
    }

    /** Rolls back to where the transaction began. */
    method RollBack(db: Db)
      requires db.clock == clock
      modifies this
      ensures Contents() == db
    {
      sessions, tokens := db.sessions, db.tokens;
    }

    method RevokeSession(s: Id) returns (affected: nat)
      modifies this`sessions
      ensures Contents() == RevokeSet(old(Contents()), {s})
      ensures affected == if s in old(sessions) && old(sessions)[s].revokedAt.None? then 1 else 0
    {
      if s in sessions && sessions[s].revokedAt.None? {
        sessions := sessions[s := sessions[s].(revokedAt := Some(clock))];
        return 1;
      }
      return 0;
    }

    method RevokeEach(ids: set<Id>)
      modifies this`sessions
      ensures Contents() == RevokeSet(old(Contents()), ids)
    {
      var todo := ids;
      ghost var done: set<Id> := {};
      while todo != {}
        invariant done + todo == ids && done !! todo
        invariant Contents() == RevokeSet(old(Contents()), done)
        decreases todo
      {
        var s :| s in todo;
        var _ := RevokeSession(s);
        todo, done := todo - {s}, done + {s};
      }
    }

    /** A login counts the live sessions and picks the oldest, if there are too many. */
    method PickEvicted(config: Config, user: Id) returns (evicted: set<Id>)
      ensures evicted == EvictedBy(config, Contents(), user)
    {
      var live := |LiveOf(Contents(), user)|;
      var surplus := Surplus(live, config.maxPerUser);
      evicted := {};
      if surplus > 0 {
        evicted := Oldest(sessions, LiveOf(Contents(), user), surplus);
      }
    }

    /** Then it writes. Between the two, others may have written. */
    method Login(
      config: Config, user: Id, sessionId: Id, tokenId: Id, pendingMfa: bool, now: int, createdAt: int, evicted: set<Id>)
      returns (reply: Reply)
      modifies this
      ensures Contents() == IssueSession(config, old(Contents()), user, sessionId, tokenId, pendingMfa, now, createdAt, evicted)
      ensures reply.UniqueViolation? <==> sessionId in old(sessions) || tokenId in old(tokens)
      ensures !reply.UniqueViolation? ==> reply == Issued(sessions[sessionId].accessExpiresAt - now)
    {
      var before := Contents();
      var lifetimes := NewLifetimes(config, now);
      RevokeEach(evicted);
      if sessionId in sessions || tokenId in tokens {
        RollBack(before);
        return UniqueViolation;
      }
      sessions := sessions[sessionId := Session(
        user, createdAt, lifetimes.accessExpiresAt, lifetimes.idleExpiresAt, lifetimes.absoluteExpiresAt, pendingMfa, None)];
      tokens := tokens[tokenId := Token(sessionId, 0, RefreshExpiry(config, now, lifetimes.absoluteExpiresAt), None, None)];
      reply := Issued(lifetimes.accessExpiresAt - now);
    }

    /** A refresh once it holds the locks on the token and its session. */
    method Finish(config: Config, row: Lookup, now: int, nextId: Id) returns (reply: Reply)
      modifies this
      ensures Contents() == FinishRefresh(config, old(Contents()), row, now, nextId)
      ensures reply.Issued? <==> Classify(row, now).Rotate? && CanRotate(old(Contents()), row, nextId)
      ensures reply.Issued? ==>
                row.token.sessionId in sessions && reply == Issued(sessions[row.token.sessionId].accessExpiresAt - now)
      ensures reply.InternalError? || reply.UniqueViolation? ==>
                Classify(row, now).Rotate? && row.tokenId in old(tokens) && old(tokens)[row.tokenId].consumedAt.None?
      ensures Classify(row, now).Rotate? && row.tokenId in old(tokens) && old(tokens)[row.tokenId].consumedAt.None? ==>
                (reply.InternalError? <==> row.token.generation >= MAX_GENERATION) &&
                (reply.UniqueViolation? <==> row.token.generation < MAX_GENERATION && nextId in old(tokens))
    {
      var before, s, t := Contents(), row.token.sessionId, row.tokenId;
      var verdict := Classify(row, now);
      if verdict.ReuseDetected? {
        var _ := RevokeSession(s);
        tokens := ConsumeFamily(Contents(), s).tokens;
        return AuthenticationFailed;
      }
      if verdict.Rejected? {
        return AuthenticationFailed;
      }
      if t !in tokens || tokens[t].consumedAt.Some? {
        return AuthenticationFailed;
      }
      tokens := tokens[t := tokens[t].(consumedAt := Some(clock))];
      var lifetimes := RefreshedLifetimes(config, now, row.session.absoluteExpiresAt);
      var expiry := RefreshExpiry(config, now, row.session.absoluteExpiresAt);
      if row.token.generation >= MAX_GENERATION {
        RollBack(before);
        return InternalError;
      }
      if nextId in tokens {
        RollBack(before);
        return UniqueViolation;
      }
      tokens := tokens[nextId := Token(s, row.token.generation + 1, expiry, None, None)];
      tokens := tokens[t := tokens[t].(replacedBy := Some(nextId))];
      if s !in sessions || sessions[s].revokedAt.Some? {
        RollBack(before);
        return AuthenticationFailed;
      }
      sessions := sessions[s := sessions[s].(
        accessExpiresAt := lifetimes.accessExpiresAt, idleExpiresAt := lifetimes.idleExpiresAt)];
      assert tokens == FinishRefresh(config, before, row, now, nextId).tokens;
      reply := Issued(lifetimes.accessExpiresAt - now);
    }
  }
}
