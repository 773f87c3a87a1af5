/** What every run of the session operations keeps. */
module SessionRuns {
  import opened Bytes
  import opened Sessions

  /** The tables, and for each session its tokens in the order they were minted. */
  datatype History = History(db: Db, family: map<Id, seq<Id>>)

  predicate IsKnown(db: Db, tokenId: Id) {
    tokenId in db.tokens && db.tokens[tokenId].sessionId in db.sessions
  }

  /** This refresh exchanges its token. */
  predicate Rotates(db: Db, tokenId: Id, now: int, userIsActive: bool, nextId: Id) {
    && IsKnown(db, tokenId)
    && Classify(LookUp(db, tokenId, userIsActive), now).Rotate?
    && CanRotate(db, LookUp(db, tokenId, userIsActive), nextId)
  }

  function TokensOf(h: History, s: Id): seq<Id> {
    if s in h.family then h.family[s] else []
  }

  predicate Issues(db: Db, step: Step) {
    step.Issue? && step.sessionId !in db.sessions && step.firstTokenId !in db.tokens
  }

  /** A used token is presented again. */
  predicate Reuses(db: Db, step: Step) {
    step.Refresh? && IsKnown(db, step.tokenId) && db.tokens[step.tokenId].consumedAt.Some?
  }

  predicate IsRotating(db: Db, step: Step) {
    step.Refresh? && Rotates(db, step.tokenId, step.now, step.userIsActive, step.nextId)
  }

  function Record(config: Config, h: History, step: Step): History {
    var db := Next(config, h.db, step);
    if Issues(h.db, step) then History(db, h.family[step.sessionId := [step.firstTokenId]])
    else if IsRotating(h.db, step) then
      var s := h.db.tokens[step.tokenId].sessionId;
      History(db, h.family[s := TokensOf(h, s) + [step.nextId]])
    else History(db, h.family)
  }

  /** Nothing yet. */
  function Start(clock: int): History {
    History(Db(map[], map[], clock), map[])
  }

  function After(config: Config, clock: int, steps: seq<Step>): History
    decreases |steps|
  {
    if steps == [] then Start(clock)
    else Record(config, After(config, clock, steps[..|steps| - 1]), steps[|steps| - 1])
  }

  lemma AfterNext(config: Config, clock: int, steps: seq<Step>)
    requires steps != []
    ensures After(config, clock, steps).db ==
              Next(config, After(config, clock, steps[..|steps| - 1]).db, steps[|steps| - 1])
  {
  }

  // ---------------------------------------------------------------------------
  // What each operation does
  // ---------------------------------------------------------------------------

  /** The token can be exchanged: never used, of an unrevoked session of an active user, and before every deadline. */
  ghost predicate IsExchangeable(db: Db, t: Id, now: int, userIsActive: bool) {
    && t in db.tokens && db.tokens[t].consumedAt.None? && db.tokens[t].sessionId in db.sessions && userIsActive
    && var session := db.sessions[db.tokens[t].sessionId];
       && session.revokedAt.None? && now < session.absoluteExpiresAt && now < session.idleExpiresAt
       && now < db.tokens[t].expiresAt
  }

  /** There is a next generation, and its id is free. */
  ghost predicate HasSuccessor(db: Db, t: Id, nextId: Id)
    requires t in db.tokens
  {
    db.tokens[t].generation < 0x7FFF_FFFF && nextId !in db.tokens
  }

  /** Whatever `deadline` says, never past the ceiling; where time has run out, the fixed fallback. */
  ghost predicate IsDeadline(config: Config, now: int, ttl: nat, ceiling: int, deadline: int) {
    var full := if now + ttl <= config.latest then now + ttl else FALLBACK;
    deadline <= ceiling && deadline <= full && (deadline == ceiling || deadline == full)
  }

  /** An unused token of session `s`, good for its time and under the ceiling. */
  ghost predicate IsNewToken(config: Config, token: Token, s: Id, generation: int, now: int, ceiling: int) {
    && token.sessionId == s && token.generation == generation && token.consumedAt.None? && token.replacedBy.None?
    && IsDeadline(config, now, config.refreshTtl, ceiling, token.expiresAt)
  }

  /** The session's own deadlines, counted from `now` and under its ceiling. */
  ghost predicate IsExtended(config: Config, session: Session, now: int) {
    && IsDeadline(config, now, config.accessTtl, session.absoluteExpiresAt, session.accessExpiresAt)
    && IsDeadline(config, now, config.idleTtl, session.absoluteExpiresAt, session.idleExpiresAt)
  }

  ghost predicate SameSessionsBut(db: Db, after: Db, s: Id) {
    forall k | k != s ::
      (k in after.sessions <==> k in db.sessions) && (k in db.sessions && k in after.sessions ==> after.sessions[k] == db.sessions[k])
  }

  /** Token `t` is used up for a new one of the next generation, and its session goes on under its old ceiling. */
  ghost predicate IsExchanged(config: Config, db: Db, after: Db, t: Id, now: int, nextId: Id)
    requires t in db.tokens && db.tokens[t].sessionId in db.sessions
  {
    var (s, before) := (db.tokens[t].sessionId, db.sessions[db.tokens[t].sessionId]);
    && after.clock == db.clock
    && t in after.tokens && after.tokens[t] == db.tokens[t].(consumedAt := Some(db.clock), replacedBy := Some(nextId))
    && nextId in after.tokens
    && IsNewToken(config, after.tokens[nextId], s, db.tokens[t].generation + 1, now, before.absoluteExpiresAt)
    && (forall k | k != t && k != nextId ::
          (k in after.tokens <==> k in db.tokens) && (k in db.tokens && k in after.tokens ==> after.tokens[k] == db.tokens[k]))
    && s in after.sessions && IsExtended(config, after.sessions[s], now)
    && after.sessions[s] ==
         before.(accessExpiresAt := after.sessions[s].accessExpiresAt, idleExpiresAt := after.sessions[s].idleExpiresAt)
    && SameSessionsBut(db, after, s)
  }

  /** Session `s` is revoked and its tokens are used up, those that were not; nothing else happens. */
  ghost predicate IsEnded(db: Db, after: Db, s: Id) {
    && after.clock == db.clock && after.sessions.Keys == db.sessions.Keys && after.tokens.Keys == db.tokens.Keys
    && (forall k | k in db.sessions ::
          after.sessions[k] == if k == s && db.sessions[k].revokedAt.None?
                               then db.sessions[k].(revokedAt := Some(db.clock)) else db.sessions[k])
    && (forall k | k in db.tokens ::
          after.tokens[k] == if db.tokens[k].sessionId == s && db.tokens[k].consumedAt.None?
                             then db.tokens[k].(consumedAt := Some(db.clock)) else db.tokens[k])
  }

  /**
   What a refresh does in every case: it exchanges the token if it can be exchanged, ends the
   session if the token was used already, expired or not, and otherwise does nothing.
   */
  lemma RefreshIsExact(config: Config, db: Db, t: Id, now: int, userIsActive: bool, nextId: Id)
    ensures var after := Next(config, db, Refresh(t, now, userIsActive, nextId));
            if t !in db.tokens || db.tokens[t].sessionId !in db.sessions then after == db
            else if db.tokens[t].consumedAt.Some? then IsEnded(db, after, db.tokens[t].sessionId)
            else if IsExchangeable(db, t, now, userIsActive) && HasSuccessor(db, t, nextId) then
              IsExchanged(config, db, after, t, now, nextId)
            else after == db
  {
    if IsExchangeable(db, t, now, userIsActive) && HasSuccessor(db, t, nextId) {
      RotationExchanges(config, db, t, now, nextId);
    }
  }

  lemma RotationExchanges(config: Config, db: Db, t: Id, now: int, nextId: Id)
    requires IsExchangeable(db, t, now, true) && HasSuccessor(db, t, nextId)
    ensures IsExchanged(config, db, RotateRows(config, db, LookUp(db, t, true), now, nextId), t, now, nextId)
    ensures Classify(LookUp(db, t, true), now).Rotate?
  {
  }

  /** The refreshes that exchange their token are those. */
  lemma RotatesIsExact(db: Db, t: Id, now: int, userIsActive: bool, nextId: Id)
    ensures Rotates(db, t, now, userIsActive, nextId) <==>
              IsExchangeable(db, t, now, userIsActive) && HasSuccessor(db, t, nextId)
  {
  }

  /** The session is the login's own, with its ceiling. */
  ghost predicate IsOpened(config: Config, session: Session, step: Step)
    requires step.Issue?
  {
    && session.userId == step.userId && session.createdAt == step.createdAt
    && session.pendingMfa == step.pendingMfa && session.revokedAt.None?
    && session.absoluteExpiresAt ==
         if step.issuedAt + config.absoluteTtl <= config.latest then step.issuedAt + config.absoluteTtl else FALLBACK
  }

  /** What a login inserts and revokes, if neither id is taken. */
  lemma LoginIsExact(config: Config, db: Db, step: Step)
    requires step.Issue?
    ensures var (after, s, t) := (Next(config, db, step), step.sessionId, step.firstTokenId);
            if s in db.sessions || t in db.tokens then after == db
            else
              && after.clock == db.clock && after.sessions.Keys == db.sessions.Keys + {s} && after.tokens.Keys == db.tokens.Keys + {t}
              && IsOpened(config, after.sessions[s], step) && IsExtended(config, after.sessions[s], step.issuedAt)
              && IsNewToken(config, after.tokens[t], s, 0, step.issuedAt, after.sessions[s].absoluteExpiresAt)
              && (forall k | k in db.sessions ::
                    after.sessions[k] == if k in step.evicted && db.sessions[k].revokedAt.None?
                                         then db.sessions[k].(revokedAt := Some(db.clock)) else db.sessions[k])
              && (forall k | k in db.tokens :: after.tokens[k] == db.tokens[k])
  {
  }

  /** The sessions that a step revokes outright. */
  ghost predicate IsNamed(db: Db, step: Step, s: Id)
    requires s in db.sessions
  {
    match step
    case Revoke(ids) => s in ids
    case RevokeUser(user, spared) => db.sessions[s].userId == user && spared != Some(s)
    case _ => false
  }

  /** Revocations leave the tokens, a verified factor ends the pending state of an unrevoked session, and time does not go back. */
  lemma OtherStepsAreExact(config: Config, db: Db, step: Step, s: Id)
    requires !step.Issue? && !step.Refresh? && s in db.sessions
    ensures var after := Next(config, db, step);
            && after.tokens == db.tokens && after.sessions.Keys == db.sessions.Keys
            && after.clock == (if step.Tick? && step.clock > db.clock then step.clock else db.clock)
            && after.sessions[s] ==
                 if IsNamed(db, step, s) && db.sessions[s].revokedAt.None?
                 then db.sessions[s].(revokedAt := Some(db.clock))
                 else if step == MarkMfaVerified(s) && db.sessions[s].revokedAt.None?
                 then db.sessions[s].(pendingMfa := false)
                 else db.sessions[s]
  {
  }

  // ---------------------------------------------------------------------------
  // Families
  // ---------------------------------------------------------------------------

  /** The token of generation `g`: used and linked to the next one, or the newest and used only if the family was killed. */
  ghost predicate MemberOk(h: History, s: Id, g: nat)
    requires s in h.db.sessions && g < |TokensOf(h, s)|
  {
    var f := TokensOf(h, s);
    && f[g] in h.db.tokens
    && var token := h.db.tokens[f[g]];
       && token.sessionId == s && token.generation == g
       && (g + 1 < |f| ==> token.consumedAt.Some? && token.replacedBy == Some(f[g + 1]))
       && (g + 1 == |f| ==> token.replacedBy.None? && (token.consumedAt.Some? ==> h.db.sessions[s].revokedAt.Some?))
  }

  /** The family is the tokens of the session, generation by generation. */
  ghost predicate FamilyOk(h: History, s: Id)
    requires s in h.db.sessions
  {
    s in h.family && |TokensOf(h, s)| > 0 && forall g: nat | g < |TokensOf(h, s)| :: MemberOk(h, s, g)
  }

  ghost predicate TokenOk(h: History, t: Id)
    requires t in h.db.tokens
  {
    var token := h.db.tokens[t];
    && token.sessionId in h.db.sessions
    && 0 <= token.generation < |TokensOf(h, token.sessionId)|
    && TokensOf(h, token.sessionId)[token.generation] == t
  }

  ghost predicate FamiliesOk(h: History) {
    && (forall s | s in h.db.sessions :: FamilyOk(h, s))
    && (forall t | t in h.db.tokens :: TokenOk(h, t))
  }

  /** No deadline lies beyond the ceiling of its session. */
  ghost predicate Bounded(db: Db) {
    && (forall s | s in db.sessions ::
          db.sessions[s].accessExpiresAt <= db.sessions[s].absoluteExpiresAt &&
          db.sessions[s].idleExpiresAt <= db.sessions[s].absoluteExpiresAt)
    && (forall t | t in db.tokens :: db.tokens[t].sessionId in db.sessions ==>
          db.tokens[t].expiresAt <= db.sessions[db.tokens[t].sessionId].absoluteExpiresAt)
  }

  ghost predicate Inv(h: History) {
    FamiliesOk(h) && Bounded(h.db)
  }

  /** Tokens stay, and sessions are only revoked, shown a factor or given other deadlines under their ceiling. */
  ghost predicate SessionsAdjusted(before: Db, after: Db) {
    && after.tokens == before.tokens && after.sessions.Keys == before.sessions.Keys
    && forall s | s in before.sessions ::
         && (before.sessions[s].revokedAt.Some? ==> after.sessions[s].revokedAt == before.sessions[s].revokedAt)
         && after.sessions[s].absoluteExpiresAt == before.sessions[s].absoluteExpiresAt
         && after.sessions[s].accessExpiresAt == before.sessions[s].accessExpiresAt
         && after.sessions[s].idleExpiresAt == before.sessions[s].idleExpiresAt
  }

  lemma AdjustedKeepsInv(h: History, after: Db)
    requires Inv(h) && SessionsAdjusted(h.db, after)
    ensures Inv(h.(db := after))
  {
    var k := h.(db := after);
    forall s | s in after.sessions ensures FamilyOk(k, s) {
      assert FamilyOk(h, s);
      forall g: nat | g < |TokensOf(k, s)| ensures MemberOk(k, s, g) {
        assert MemberOk(h, s, g);
      }
    }
    forall t | t in after.tokens ensures TokenOk(k, t) {
      assert TokenOk(h, t);
    }
  }

  /** A fresh session with a fresh first token. */
  ghost predicate IsInsertion(h: History, k: History, s: Id, t: Id) {
    && s !in h.db.sessions && t !in h.db.tokens
    && s in k.db.sessions && k.db.sessions == h.db.sessions[s := k.db.sessions[s]]
    && t in k.db.tokens && k.db.tokens == h.db.tokens[t := k.db.tokens[t]]
    && k.db.tokens[t].sessionId == s && k.db.tokens[t].generation == 0
    && k.db.tokens[t].consumedAt.None? && k.db.tokens[t].replacedBy.None?
    && k.db.sessions[s].accessExpiresAt <= k.db.sessions[s].absoluteExpiresAt
    && k.db.sessions[s].idleExpiresAt <= k.db.sessions[s].absoluteExpiresAt
    && k.db.tokens[t].expiresAt <= k.db.sessions[s].absoluteExpiresAt
    && k == History(k.db, h.family[s := [t]])
  }

  lemma InsertKeepsFamilies(h: History, k: History, s: Id, t: Id)
    requires FamiliesOk(h) && IsInsertion(h, k, s, t)
    ensures FamiliesOk(k)
  {
    forall x | x in k.db.tokens ensures TokenOk(k, x) {
      assert x != t ==> TokenOk(h, x);
    }
    forall x | x in k.db.sessions ensures FamilyOk(k, x) {
      if x == s {
        assert MemberOk(k, s, 0);
      } else {
        assert FamilyOk(h, x);
        forall g: nat | g < |TokensOf(k, x)| ensures MemberOk(k, x, g) {
          assert MemberOk(h, x, g);
        }
      }
    }
  }

  lemma InsertKeepsInv(h: History, k: History, s: Id, t: Id)
    requires Inv(h) && IsInsertion(h, k, s, t)
    ensures Inv(k)
  {
    InsertKeepsFamilies(h, k, s, t);
    assert forall x | x in h.db.tokens :: TokenOk(h, x);
  }

  /** Session `s` revoked and its tokens used up. */
  ghost predicate IsKilling(h: History, k: History, s: Id) {
    && s in h.db.sessions
    && k.family == h.family
    && k.db.clock == h.db.clock && k.db.sessions.Keys == h.db.sessions.Keys && k.db.tokens.Keys == h.db.tokens.Keys
    && (forall x | x in h.db.sessions ::
          k.db.sessions[x] == if x == s && h.db.sessions[x].revokedAt.None?
                              then h.db.sessions[x].(revokedAt := Some(h.db.clock)) else h.db.sessions[x])
    && (forall t | t in h.db.tokens ::
          k.db.tokens[t] == if h.db.tokens[t].sessionId == s && h.db.tokens[t].consumedAt.None?
                            then h.db.tokens[t].(consumedAt := Some(h.db.clock)) else h.db.tokens[t])
  }

  lemma KillKeepsFamilies(h: History, k: History, s: Id)
    requires FamiliesOk(h) && IsKilling(h, k, s)
    ensures FamiliesOk(k)
  {
    forall x | x in k.db.tokens ensures TokenOk(k, x) {
      assert TokenOk(h, x);
    }
    forall x | x in k.db.sessions ensures FamilyOk(k, x) {
      assert FamilyOk(h, x);
      forall g: nat | g < |TokensOf(k, x)| ensures MemberOk(k, x, g) {
        assert MemberOk(h, x, g);
      }
    }
  }

  lemma KillKeepsInv(h: History, k: History, s: Id)
    requires Inv(h) && IsKilling(h, k, s)
    ensures Inv(k)
  {
    KillKeepsFamilies(h, k, s);
  }

  /** The newest token `t` of session `s` used, and linked to the fresh token `next`. */
  ghost predicate IsRotation(h: History, k: History, s: Id, t: Id, next: Id) {
    && s in h.db.sessions && h.db.sessions[s].revokedAt.None?
    && t in h.db.tokens && h.db.tokens[t].sessionId == s && h.db.tokens[t].consumedAt.None? && next !in h.db.tokens
    && next in k.db.tokens && t in k.db.tokens && s in k.db.sessions
    && k.db.tokens == h.db.tokens[next := k.db.tokens[next]][t := k.db.tokens[t]]
    && k.db.tokens[t] == h.db.tokens[t].(consumedAt := Some(h.db.clock), replacedBy := Some(next))
    && k.db.tokens[next] == Token(s, h.db.tokens[t].generation + 1, k.db.tokens[next].expiresAt, None, None)
    && k.db.sessions == h.db.sessions[s := k.db.sessions[s]]
    && k.db.sessions[s].revokedAt.None? && k.db.sessions[s].absoluteExpiresAt == h.db.sessions[s].absoluteExpiresAt
    && k.db.sessions[s].accessExpiresAt <= k.db.sessions[s].absoluteExpiresAt
    && k.db.sessions[s].idleExpiresAt <= k.db.sessions[s].absoluteExpiresAt
    && k.db.tokens[next].expiresAt <= k.db.sessions[s].absoluteExpiresAt
    && k == History(k.db, h.family[s := TokensOf(h, s) + [next]])
  }

  /** Only the newest token of a family is unused. */
  lemma UnusedIsNewest(h: History, s: Id, t: Id)
    requires FamiliesOk(h) && s in h.db.sessions
    requires t in h.db.tokens && h.db.tokens[t].sessionId == s && h.db.tokens[t].consumedAt.None?
    ensures s in h.family && |TokensOf(h, s)| > 0
    ensures h.db.tokens[t].generation == |TokensOf(h, s)| - 1 && TokensOf(h, s)[|TokensOf(h, s)| - 1] == t
    ensures h.db.tokens[t].replacedBy.None?
  {
    assert TokenOk(h, t) && FamilyOk(h, s);
    assert MemberOk(h, s, h.db.tokens[t].generation);
  }

  lemma RotateKeepsFamilies(h: History, k: History, s: Id, t: Id, next: Id)
    requires FamiliesOk(h) && IsRotation(h, k, s, t, next)
    ensures FamiliesOk(k)
  {
    UnusedIsNewest(h, s, t);
    forall x | x in k.db.tokens ensures TokenOk(k, x) {
      assert x != next ==> TokenOk(h, x);
    }
    forall x | x in k.db.sessions ensures FamilyOk(k, x) {
      assert FamilyOk(h, x);
      forall g: nat | g < |TokensOf(k, x)| ensures MemberOk(k, x, g) {
        assert g < |TokensOf(h, x)| ==> MemberOk(h, x, g);
      }
    }
  }

  lemma RotateKeepsInv(h: History, k: History, s: Id, t: Id, next: Id)
    requires Inv(h) && IsRotation(h, k, s, t, next)
    ensures Inv(k)
  {
    RotateKeepsFamilies(h, k, s, t, next);
  }

  lemma IssueInserts(config: Config, h: History, step: Step)
    requires Issues(h.db, step)
    ensures var evicted := RevokeSet(h.db, step.evicted);
            SessionsAdjusted(h.db, evicted) &&
            IsInsertion(h.(db := evicted), Record(config, h, step), step.sessionId, step.firstTokenId)
  {
  }

  lemma ReuseKills(config: Config, h: History, step: Step)
    requires Reuses(h.db, step)
    ensures IsKilling(h, Record(config, h, step), h.db.tokens[step.tokenId].sessionId)
  {
  }

  lemma RefreshRotates(config: Config, h: History, step: Step)
    requires IsRotating(h.db, step)
    ensures IsRotation(h, Record(config, h, step), h.db.tokens[step.tokenId].sessionId, step.tokenId, step.nextId)
  {
  }

  lemma OthersAdjust(config: Config, h: History, step: Step)
    requires !Issues(h.db, step) && !Reuses(h.db, step) && !IsRotating(h.db, step)
    ensures SessionsAdjusted(h.db, Next(config, h.db, step))
    ensures Record(config, h, step) == h.(db := Next(config, h.db, step))
  {
  }

  lemma StepKeepsInv(config: Config, h: History, step: Step)
    requires Inv(h)
    ensures Inv(Record(config, h, step))
  {
    var k := Record(config, h, step);
    if Issues(h.db, step) {
      var evicted := RevokeSet(h.db, step.evicted);
      IssueInserts(config, h, step);
      AdjustedKeepsInv(h, evicted);
      InsertKeepsInv(h.(db := evicted), k, step.sessionId, step.firstTokenId);
    } else if Reuses(h.db, step) {
      ReuseKills(config, h, step);
      KillKeepsInv(h, k, h.db.tokens[step.tokenId].sessionId);
    } else if IsRotating(h.db, step) {
      RefreshRotates(config, h, step);
      RotateKeepsInv(h, k, h.db.tokens[step.tokenId].sessionId, step.tokenId, step.nextId);
    } else {
      OthersAdjust(config, h, step);
      AdjustedKeepsInv(h, Next(config, h.db, step));
    }
  }

  /** In every reachable state the tokens of each session form one family, and no deadline passes a ceiling. */
  lemma {:induction false} ReachableFamilies(config: Config, clock: int, steps: seq<Step>)
    ensures Inv(After(config, clock, steps))
    decreases |steps|
  {
    if steps != [] {
      var before := steps[..|steps| - 1];
      ReachableFamilies(config, clock, before);
      StepKeepsInv(config, After(config, clock, before), steps[|steps| - 1]);
    }
  }

  // ---------------------------------------------------------------------------
  // What is final
  // ---------------------------------------------------------------------------

  ghost predicate SessionGoesOn(before: Session, after: Session) {
    && after.userId == before.userId && after.createdAt == before.createdAt
    && after.absoluteExpiresAt == before.absoluteExpiresAt
    && (before.revokedAt.Some? ==> after.revokedAt == before.revokedAt)
    && (!before.pendingMfa ==> !after.pendingMfa)
  }

  ghost predicate TokenGoesOn(before: Token, after: Token) {
    && after.sessionId == before.sessionId && after.generation == before.generation && after.expiresAt == before.expiresAt
    && (before.consumedAt.Some? ==> after.consumedAt == before.consumedAt)
    && (before.replacedBy.Some? ==> after.replacedBy == before.replacedBy)
  }

  /** Ceilings do not move; revocation, use and verification are for good. */
  ghost predicate Later(before: Db, after: Db) {
    && before.clock <= after.clock
    && (forall s | s in before.sessions :: s in after.sessions && SessionGoesOn(before.sessions[s], after.sessions[s]))
    && (forall t | t in before.tokens :: t in after.tokens && TokenGoesOn(before.tokens[t], after.tokens[t]))
  }

  lemma RefreshIsLater(config: Config, db: Db, step: Step)
    requires step.Refresh?
    requires forall t | t in db.tokens :: db.tokens[t].replacedBy.Some? ==> db.tokens[t].consumedAt.Some?
    ensures Later(db, Next(config, db, step))
  {
  }

  lemma OtherIsLater(config: Config, db: Db, step: Step)
    requires !step.Refresh?
    ensures Later(db, Next(config, db, step))
  {
  }

  lemma StepIsLater(config: Config, h: History, step: Step)
    requires FamiliesOk(h)
    ensures Later(h.db, Record(config, h, step).db)
  {
    if step.Refresh? {
      LinksAreUsed(h);
      RefreshIsLater(config, h.db, step);
    } else {
      OtherIsLater(config, h.db, step);
    }
  }

  lemma LaterIsTransitive(a: Db, b: Db, c: Db)
    requires Later(a, b) && Later(b, c)
    ensures Later(a, c)
  {
  }

  lemma LinksAreUsed(h: History)
    requires FamiliesOk(h)
    ensures forall t | t in h.db.tokens :: h.db.tokens[t].replacedBy.Some? ==> h.db.tokens[t].consumedAt.Some?
  {
    forall t | t in h.db.tokens && h.db.tokens[t].consumedAt.None? ensures h.db.tokens[t].replacedBy.None? {
      assert TokenOk(h, t);
      UnusedIsNewest(h, h.db.tokens[t].sessionId, t);
    }
  }

  lemma {:induction false} RunIsLater(config: Config, clock: int, steps: seq<Step>, i: nat)
    requires i <= |steps|
    ensures Later(After(config, clock, steps[..i]).db, After(config, clock, steps).db)
    decreases |steps|
  {
    if i == |steps| {
      assert steps[..i] == steps;
    } else {
      var before := steps[..|steps| - 1];
      RunIsLater(config, clock, before, i);
      assert before[..i] == steps[..i];
      ReachableFamilies(config, clock, before);
      StepIsLater(config, After(config, clock, before), steps[|steps| - 1]);
      LaterIsTransitive(After(config, clock, steps[..i]).db, After(config, clock, before).db, After(config, clock, steps).db);
    }
  }

  /** A token is exchanged at most once, whatever happens in between. */
  lemma RotatesAtMostOnce(config: Config, clock: int, steps: seq<Step>, i: nat, j: nat)
    requires i < j < |steps| && steps[i].Refresh? && steps[j].Refresh? && steps[i].tokenId == steps[j].tokenId
    requires IsRotating(After(config, clock, steps[..i]).db, steps[i])
    ensures !IsRotating(After(config, clock, steps[..j]).db, steps[j])
    ensures Reuses(After(config, clock, steps[..j]).db, steps[j])
  {
    assert steps[..i + 1][..i] == steps[..i];
    assert steps[..j][..i + 1] == steps[..i + 1];
    var used := After(config, clock, steps[..i + 1]).db;
    RunIsLater(config, clock, steps[..j], i + 1);
    assert used.tokens[steps[i].tokenId].consumedAt.Some?;
  }

  /** Revoked, with every token used. */
  ghost predicate IsDead(db: Db, s: Id) {
    && s in db.sessions && db.sessions[s].revokedAt.Some?
    && forall t | t in db.tokens && db.tokens[t].sessionId == s :: db.tokens[t].consumedAt.Some?
  }

  lemma DeadStaysDead(config: Config, db: Db, step: Step, s: Id)
    requires IsDead(db, s)
    ensures IsDead(Next(config, db, step), s)
    ensures IsRotating(db, step) ==> db.tokens[step.tokenId].sessionId != s
  {
  }

  lemma {:induction false} DeadForever(config: Config, clock: int, steps: seq<Step>, i: nat, s: Id)
    requires i <= |steps| && IsDead(After(config, clock, steps[..i]).db, s)
    ensures IsDead(After(config, clock, steps).db, s)
    decreases |steps|
  {
    if i == |steps| {
      assert steps[..i] == steps;
    } else {
      var before := steps[..|steps| - 1];
      assert before[..i] == steps[..i];
      DeadForever(config, clock, before, i, s);
      DeadStaysDead(config, After(config, clock, before).db, steps[|steps| - 1], s);
    }
  }

  /** Once a used token was presented, no token of that session is ever exchanged again, and the session stays revoked. */
  lemma ReuseEndsTheFamily(config: Config, clock: int, steps: seq<Step>, i: nat, j: nat)
    requires i < j < |steps| && Reuses(After(config, clock, steps[..i]).db, steps[i])
    ensures var s := After(config, clock, steps[..i]).db.tokens[steps[i].tokenId].sessionId;
            var later := After(config, clock, steps[..j]).db;
            IsDead(later, s) && (IsRotating(later, steps[j]) ==> later.tokens[steps[j].tokenId].sessionId != s)
  {
    var db := After(config, clock, steps[..i]).db;
    var s := db.tokens[steps[i].tokenId].sessionId;
    assert steps[..i + 1][..i] == steps[..i] && steps[..j][..i + 1] == steps[..i + 1];
    assert IsDead(Next(config, db, steps[i]), s);
    DeadForever(config, clock, steps[..j], i + 1, s);
    DeadStaysDead(config, After(config, clock, steps[..j]).db, steps[j], s);
  }

  /** A session leaves the pending state only by a verified factor. */
  lemma PendingEndsOnlyByVerification(config: Config, db: Db, step: Step, s: Id)
    requires s in db.sessions && db.sessions[s].pendingMfa
    ensures s in Next(config, db, step).sessions
    ensures !Next(config, db, step).sessions[s].pendingMfa <==>
              step == MarkMfaVerified(s) && db.sessions[s].revokedAt.None?
  {
  }

  ghost predicate LiveIn(db: Db, s: Id) {
    s in db.sessions && IsLive(db.sessions[s], db.clock)
  }

  /** A login opens a live session with a token that can be exchanged, both until a deadline passes. */
  lemma LoginOpensSession(config: Config, db: Db, step: Step, now: int, nextId: Id)
    requires Issues(db, step) && nextId !in Next(config, db, step).tokens
    ensures var (after, ceiling) := (Next(config, db, step), Advance(config, step.issuedAt, config.absoluteTtl));
            var idle := Advance(config, step.issuedAt, config.idleTtl);
            && (LiveIn(after, step.sessionId) <==> db.clock < ceiling && db.clock < idle)
            && (IsRotating(after, Refresh(step.firstTokenId, now, true, nextId)) <==>
                  now < ceiling && now < idle && now < Advance(config, step.issuedAt, config.refreshTtl))
            && after.sessions[step.sessionId].pendingMfa == step.pendingMfa
            && after.sessions[step.sessionId].userId == step.userId
  {
  }

  /** The token handed out by a rotation can be exchanged in turn, until a deadline passes. */
  lemma HandedOutTokenWorks(config: Config, db: Db, step: Step, now: int, nextId: Id)
    requires IsRotating(db, step) && nextId !in Next(config, db, step).tokens
    requires db.tokens[step.tokenId].generation + 1 < MAX_GENERATION
    ensures var ceiling := db.sessions[db.tokens[step.tokenId].sessionId].absoluteExpiresAt;
            IsRotating(Next(config, db, step), Refresh(step.nextId, now, true, nextId)) <==>
              && now < ceiling && now < Advance(config, step.now, config.refreshTtl)
              && now < Advance(config, step.now, config.idleTtl)
  {
  }

  // ---------------------------------------------------------------------------
  // Living sessions and the cap
  // ---------------------------------------------------------------------------

  /**
   A session that is over comes back to life exactly if a refresh that took its time
   before it got the locks rotates the session's token past the idle deadline.
   */
  lemma RevivalIsLateRotation(config: Config, db: Db, step: Step, s: Id)
    requires s in db.sessions && !LiveIn(db, s)
    ensures LiveIn(Next(config, db, step), s) <==>
              && IsRotating(db, step) && db.tokens[step.tokenId].sessionId == s
              && step.now < db.sessions[s].idleExpiresAt <= db.clock < db.sessions[s].absoluteExpiresAt
              && Advance(config, step.now, config.idleTtl) > db.clock
  {
  }

  /** A rotation that comes after the idle deadline of its session and brings the session back. */
  ghost predicate Revives(config: Config, db: Db, step: Step) {
    && IsRotating(db, step)
    && var session := db.sessions[db.tokens[step.tokenId].sessionId];
       && session.idleExpiresAt <= db.clock < session.absoluteExpiresAt
       && Advance(config, step.now, config.idleTtl) > db.clock
  }

  /** A revival adds its session to the live ones of its user, and nothing else does but a login. */
  lemma RevivalAddsOne(config: Config, db: Db, step: Step, user: Id)
    requires Revives(config, db, step)
    ensures var s := db.tokens[step.tokenId].sessionId;
            && s !in LiveOf(db, user)
            && LiveOf(Next(config, db, step), user) ==
                 LiveOf(db, user) + if db.sessions[s].userId == user then {s} else {}
  {
  }

  lemma OthersAddNothing(config: Config, db: Db, step: Step, user: Id)
    requires !Revives(config, db, step) && !Issues(db, step)
    ensures LiveOf(Next(config, db, step), user) <= LiveOf(db, user)
  {
    forall s | s in LiveOf(Next(config, db, step), user) ensures s in LiveOf(db, user) {
      if !LiveIn(db, s) {
        RevivalIsLateRotation(config, db, step, s);
      }
    }
  }

  /** A login ends the sessions it has picked and adds its own, if that is live yet. */
  lemma IssueEvictsPicked(config: Config, db: Db, step: Step, user: Id)
    requires Issues(db, step)
    ensures step.sessionId !in LiveOf(db, user)
    ensures LiveOf(Next(config, db, step), user) ==
              (LiveOf(db, user) - step.evicted) +
              if user == step.userId && OpensLive(config, db, step) then {step.sessionId} else {}
  {
  }

  /** The deadlines of the session that the login opens lie ahead. */
  predicate OpensLive(config: Config, db: Db, step: Step)
    requires step.Issue?
  {
    db.clock < Advance(config, step.issuedAt, config.absoluteTtl) && db.clock < Advance(config, step.issuedAt, config.idleTtl)
  }

  /** What a login picks are the oldest of the live sessions it lists, as many as its count asks for. */
  lemma PickedAreOldest(config: Config, counted: Db, listed: Db, user: Id, clock: int)
    ensures var (live, picked) := (LiveAt(listed, user, clock), Picked(config, counted, listed, user, clock));
            var (found, max) := (|LiveAt(counted, user, clock)|, config.maxPerUser);
            var surplus := if max == 0 || found < max then 0 else found + 1 - max;
            && picked <= live && |picked| == (if surplus < |live| then surplus else |live|)
            && forall a, b | a in picked && b in live - picked ::
                 || listed.sessions[a].createdAt < listed.sessions[b].createdAt
                 || (listed.sessions[a].createdAt == listed.sessions[b].createdAt && a < b)
  {
    var (live, picked) := (LiveAt(listed, user, clock), Picked(config, counted, listed, user, clock));
    var surplus := Surplus(|LiveAt(counted, user, clock)|, config.maxPerUser);
    OldestCount(listed.sessions, live, surplus);
    forall a, b | a in picked && b in live - picked ensures Older(listed.sessions, a, b) {
      OldestAreOlder(listed.sessions, live, surplus, a, b);
    }
  }

  /** A login that writes in the state it has read evicts exactly the oldest sessions of the user, as many as the cap needs, and nobody else's. */
  lemma IssueEvictsOldest(config: Config, db: Db, step: Step, user: Id)
    requires Issues(db, step) && step.evicted == EvictedBy(config, db, step.userId)
    ensures var (live, evicted) := (LiveOf(db, step.userId), step.evicted);
            && evicted <= live
            && |evicted| == (if config.maxPerUser == 0 || |live| < config.maxPerUser then 0 else |live| + 1 - config.maxPerUser)
            && (forall a, b | a in evicted && b in live - evicted ::
                  || db.sessions[a].createdAt < db.sessions[b].createdAt
                  || (db.sessions[a].createdAt == db.sessions[b].createdAt && a < b))
    ensures LiveOf(Next(config, db, step), user) - {step.sessionId} ==
              if user == step.userId then LiveOf(db, user) - step.evicted else LiveOf(db, user)
  {
    PickedAreOldest(config, db, db, step.userId, db.clock);
    IssueEvictsPicked(config, db, step, user);
  }

  /** Revoking a user's sessions ends all of them but the one spared, and nobody else's. */
  lemma RevokeUserIsExact(config: Config, db: Db, user: Id, spared: Option<Id>, other: Id)
    ensures var after := Next(config, db, RevokeUser(user, spared));
            LiveOf(after, other) ==
              if other != user then LiveOf(db, other)
              else set s | s in LiveOf(db, user) && spared == Some(s)
  {
  }

  lemma RemainderCount(a: set<Id>, b: set<Id>)
    requires b <= a
    ensures |a - b| == |a| - |b|
  {
  }

  /** A login that opens a live session although the sessions outside those it has picked fill the cap. */
  ghost predicate LoginOverflows(config: Config, db: Db, step: Step, user: Id) {
    && Issues(db, step) && step.userId == user && OpensLive(config, db, step)
    && |LiveOf(db, user) - step.evicted| >= config.maxPerUser
  }

  /** A revival of one of the user's sessions when the user has as many live ones as the cap allows. */
  ghost predicate RevivalOverflows(config: Config, db: Db, step: Step, user: Id) {
    && Revives(config, db, step)
    && db.sessions[db.tokens[step.tokenId].sessionId].userId == user
    && |LiveOf(db, user)| == config.maxPerUser
  }

  ghost predicate OverflowsCap(config: Config, db: Db, step: Step, user: Id) {
    LoginOverflows(config, db, step, user) || RevivalOverflows(config, db, step, user)
  }

  lemma IssueKeepsCapExactly(config: Config, db: Db, step: Step, user: Id)
    requires Issues(db, step) && |LiveOf(db, user)| <= config.maxPerUser
    ensures |LiveOf(Next(config, db, step), user)| <= config.maxPerUser <==> !LoginOverflows(config, db, step, user)
  {
    IssueEvictsPicked(config, db, step, user);
    SubsetCount(LiveOf(db, user) - step.evicted, LiveOf(db, user));
  }

  /** From within the cap a step leaves the user within it exactly if it is no such login and no such revival. */
  lemma StepKeepsCapExactly(config: Config, db: Db, step: Step, user: Id)
    requires config.maxPerUser > 0 && |LiveOf(db, user)| <= config.maxPerUser
    ensures |LiveOf(Next(config, db, step), user)| <= config.maxPerUser <==> !OverflowsCap(config, db, step, user)
  {
    if Issues(db, step) {
      IssueKeepsCapExactly(config, db, step, user);
    } else if Revives(config, db, step) {
      RevivalAddsOne(config, db, step, user);
    } else {
      OthersAddNothing(config, db, step, user);
      SubsetCount(LiveOf(Next(config, db, step), user), LiveOf(db, user));
    }
  }

  /**
   A login leaves room for its session if no session of its user came to life between its
   queries and its writes, and none between the two queries.
   */
  lemma LoginByItselfFits(config: Config, counted: Db, listed: Db, db: Db, step: Step, clock: int)
    requires Issues(db, step) && config.maxPerUser > 0
    requires step.evicted == Picked(config, counted, listed, step.userId, clock)
    requires |LiveAt(listed, step.userId, clock)| <= |LiveAt(counted, step.userId, clock)|
    requires LiveOf(db, step.userId) <= LiveAt(listed, step.userId, clock)
    ensures !LoginOverflows(config, db, step, step.userId)
  {
    var live := LiveAt(listed, step.userId, clock);
    PickedAreOldest(config, counted, listed, step.userId, clock);
    RemainderCount(live, step.evicted);
    SubsetCount(LiveOf(db, step.userId) - step.evicted, live - step.evicted);
  }

  ghost predicate WithinCap(config: Config, clock: int, steps: seq<Step>, user: Id, k: nat)
    requires k <= |steps|
  {
    |LiveOf(After(config, clock, steps[..k]).db, user)| <= config.maxPerUser
  }

  ghost predicate OverflowsAt(config: Config, clock: int, steps: seq<Step>, user: Id, i: nat)
    requires i < |steps|
  {
    OverflowsCap(config, After(config, clock, steps[..i]).db, steps[i], user)
  }

  lemma CapAtStart(config: Config, clock: int, steps: seq<Step>, user: Id)
    ensures WithinCap(config, clock, steps, user, 0)
  {
    assert steps[..0] == [] && LiveOf(Start(clock).db, user) == {};
  }

  lemma CapNext(config: Config, clock: int, steps: seq<Step>, user: Id, i: nat)
    requires config.maxPerUser > 0 && i < |steps| && WithinCap(config, clock, steps, user, i)
    ensures WithinCap(config, clock, steps, user, i + 1) <==> !OverflowsAt(config, clock, steps, user, i)
  {
    assert steps[..i + 1][..i] == steps[..i];
    AfterNext(config, clock, steps[..i + 1]);
    StepKeepsCapExactly(config, After(config, clock, steps[..i]).db, steps[i], user);
  }

  lemma {:induction false} CapGoesOn(config: Config, clock: int, steps: seq<Step>, user: Id, n: nat)
    requires config.maxPerUser > 0 && n <= |steps|
    requires forall i | 0 <= i < |steps| :: !OverflowsAt(config, clock, steps, user, i)
    ensures WithinCap(config, clock, steps, user, n)
  {
    if n == 0 {
      CapAtStart(config, clock, steps, user);
    } else {
      CapGoesOn(config, clock, steps, user, n - 1);
      CapNext(config, clock, steps, user, n - 1);
    }
  }

  /**
   In a run, logins overlapping or not, a user is within the cap throughout exactly if no
   login overflows it and no step revives a session of that user when it is reached.
   */
  lemma CapHoldsExactly(config: Config, clock: int, steps: seq<Step>, user: Id)
    requires config.maxPerUser > 0
    ensures (forall k | 0 <= k <= |steps| :: WithinCap(config, clock, steps, user, k)) <==>
              forall i | 0 <= i < |steps| :: !OverflowsAt(config, clock, steps, user, i)
  {
    if forall k | 0 <= k <= |steps| :: WithinCap(config, clock, steps, user, k) {
      forall i | 0 <= i < |steps| ensures !OverflowsAt(config, clock, steps, user, i) {
        CapNext(config, clock, steps, user, i);
      }
    }
    if forall i | 0 <= i < |steps| :: !OverflowsAt(config, clock, steps, user, i) {
      forall k | 0 <= k <= |steps| ensures WithinCap(config, clock, steps, user, k) {
        CapGoesOn(config, clock, steps, user, k);
      }
    }
  }

  /** A login, if the step is one, writes in the state it has read. */
  ghost predicate IsUndivided(config: Config, db: Db, step: Step) {
    step.Issue? ==> step.evicted == EvictedBy(config, db, step.userId)
  }

  lemma UndividedKeepsCap(config: Config, db: Db, step: Step, user: Id)
    requires config.maxPerUser > 0 && IsUndivided(config, db, step) && !Revives(config, db, step)
    ensures !OverflowsCap(config, db, step, user)
  {
    if Issues(db, step) {
      LoginByItselfFits(config, db, db, db, step, db.clock);
    }
  }

  /** So in a run without overlapping logins in which no step revives a session, no user ever has more live sessions than the cap. */
  lemma CapHolds(config: Config, clock: int, steps: seq<Step>, user: Id)
    requires config.maxPerUser > 0
    requires forall i | 0 <= i < |steps| ::
               IsUndivided(config, After(config, clock, steps[..i]).db, steps[i]) &&
               !Revives(config, After(config, clock, steps[..i]).db, steps[i])
    ensures |LiveOf(After(config, clock, steps).db, user)| <= config.maxPerUser
  {
    forall i | 0 <= i < |steps| ensures !OverflowsAt(config, clock, steps, user, i) {
      UndividedKeepsCap(config, After(config, clock, steps[..i]).db, steps[i], user);
    }
    CapHoldsExactly(config, clock, steps, user);
    assert steps[..|steps|] == steps && WithinCap(config, clock, steps, user, |steps|);
  }

  lemma SecondStillIssues(config: Config, db: Db, first: Step, second: Step)
    requires Issues(db, first) && Issues(db, second) && OpensLive(config, db, second)
    requires first.sessionId != second.sessionId && first.firstTokenId != second.firstTokenId
    ensures Issues(Next(config, db, first), second) && OpensLive(config, Next(config, db, first), second)
  {
  }

  lemma TwoMore(live: set<Id>, evicted: set<Id>, a: Id, b: Id)
    requires evicted <= live && a !in live && b !in live && a != b
    ensures |((live - evicted) + {a} - evicted) + {b}| == |live| - |evicted| + 2
  {
    RemainderCount(live, evicted);
    assert (live - evicted) + {a} - evicted == (live - evicted) + {a};
  }

  /**
   Two logins of one user that have both picked before either writes: the user ends within
   the cap exactly if there was room for both.
   */
  lemma OverlappingLoginsExactly(config: Config, db: Db, first: Step, second: Step)
    requires config.maxPerUser > 0 && Issues(db, first) && Issues(db, second) && first.userId == second.userId
    requires first.sessionId != second.sessionId && first.firstTokenId != second.firstTokenId
    requires first.evicted == EvictedBy(config, db, first.userId) && second.evicted == first.evicted
    requires OpensLive(config, db, first) && OpensLive(config, db, second)
    ensures var (live, after) := (LiveOf(db, first.userId), Next(config, Next(config, db, first), second));
            && (|LiveOf(after, first.userId)| <= config.maxPerUser <==> |live| + 2 <= config.maxPerUser)
            && (|live| + 2 > config.maxPerUser ==> |LiveOf(after, first.userId)| == config.maxPerUser + 1)
  {
    var (user, between) := (first.userId, Next(config, db, first));
    PickedAreOldest(config, db, db, user, db.clock);
    SecondStillIssues(config, db, first, second);
    IssueEvictsPicked(config, db, first, user);
    IssueEvictsPicked(config, between, second, user);
    IssueEvictsPicked(config, db, second, user);
    TwoMore(LiveOf(db, user), first.evicted, first.sessionId, second.sessionId);
  }

  const CAP_OF_ONE := Config(100, 20, 500, 1000, 1, 1_000_000)

  /** One login has idled out and the user has logged in again. */
  const TWO_LOGINS := Db(
    map[1 := Session(7, 0, 100, 20, 1000, false, None), 2 := Session(7, 30, 130, 50, 1030, false, None)],
    map[1 := Token(1, 0, 500, None, None), 2 := Token(2, 0, 530, None, None)],
    30)

  lemma FirstLogin()
    ensures After(CAP_OF_ONE, 0, [Issue(7, 1, 1, false, 0, 0, {}), Tick(30)]).db ==
              Db(map[1 := Session(7, 0, 100, 20, 1000, false, None)], map[1 := Token(1, 0, 500, None, None)], 30)
  {
  }

  /** A login, its idle deadline passed, and another login. */
  const TWO_LOGIN_STEPS := [Issue(7, 1, 1, false, 0, 0, {}), Tick(30), Issue(7, 2, 2, false, 30, 30, {})]

  lemma TwoLoginsAreReachable()
    ensures After(CAP_OF_ONE, 0, TWO_LOGIN_STEPS).db == TWO_LOGINS
    ensures IsUndivided(CAP_OF_ONE, After(CAP_OF_ONE, 0, TWO_LOGIN_STEPS[..2]).db, TWO_LOGIN_STEPS[2])
  {
    FirstLogin();
    assert TWO_LOGIN_STEPS[..2] == [Issue(7, 1, 1, false, 0, 0, {}), Tick(30)];
    var db := After(CAP_OF_ONE, 0, TWO_LOGIN_STEPS[..2]).db;
    assert LiveOf(db, 7) == {} && EvictedBy(CAP_OF_ONE, db, 7) == {};
  }

  /** A refresh of the idled session, its time taken before the second login, ends this run in two live sessions under a cap of one. */
  lemma LateRotationBreaksCap()
    ensures var db := After(CAP_OF_ONE, 0, TWO_LOGIN_STEPS).db;
            && LiveOf(db, 7) == {2}
            && OverflowsCap(CAP_OF_ONE, db, Refresh(1, 15, true, 3), 7)
            && LiveOf(After(CAP_OF_ONE, 0, TWO_LOGIN_STEPS + [Refresh(1, 15, true, 3)]).db, 7) == {1, 2}
  {
    var steps := TWO_LOGIN_STEPS + [Refresh(1, 15, true, 3)];
    TwoLoginsAreReachable();
    assert steps[..|steps| - 1] == TWO_LOGIN_STEPS;
    AfterNext(CAP_OF_ONE, 0, steps);
    assert LiveOf(TWO_LOGINS, 7) == {2};
    RevivalAddsOne(CAP_OF_ONE, TWO_LOGINS, Refresh(1, 15, true, 3), 7);
  }

  /** A rotation that takes its time early but is on time is no revival: it keeps its session live and the cap as it was. */
  lemma OnTimeRotationKeepsLive(config: Config, db: Db, step: Step, user: Id)
    requires IsRotating(db, step) && LiveIn(db, db.tokens[step.tokenId].sessionId)
    ensures !Revives(config, db, step) && LiveOf(Next(config, db, step), user) <= LiveOf(db, user)
  {
    OthersAddNothing(config, db, step, user);
  }
}
