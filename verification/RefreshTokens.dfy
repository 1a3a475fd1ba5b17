/** app/auth/refresh_tokens.py: issuing, rotating and revoking refresh tokens. The four changes
    to the session table are functions on it; the methods perform them row by row. */
module RefreshTokens {
  import opened Prelude
  import opened AuthTables

  datatype RefreshError = InvalidRefreshToken | ReplayDetected

  predicate Live(s: Session, now: Time) {
    s.revokedAt.None? && s.expiresAt > now
  }

  // ----- the changes to the table -----

  /** The rows among `ids` that were not revoked yet are, as of `now`. */
  function RevokedAmong(sessions: Sessions, ids: set<SessionId>, now: Time): Sessions {
    map i | i in sessions ::
      if i in ids && sessions[i].revokedAt.None? then sessions[i].(revokedAt := Some(now)) else sessions[i]
  }

  lemma RevokedAmongNone(sessions: Sessions, now: Time)
    ensures RevokedAmong(sessions, {}, now) == sessions
  {
  }

  /** Revoking one row more is one step of a revocation loop. */
  lemma RevokedAmongOneMore(sessions: Sessions, done: set<SessionId>, i: SessionId, now: Time)
    requires i in sessions && i !in done
    ensures RevokedAmong(sessions, done + {i}, now)
         == var part := RevokedAmong(sessions, done, now);
            if part[i].revokedAt.None? then part[i := part[i].(revokedAt := Some(now))] else part
  {
  }

  lemma RevokedAmongKeepsHashes(sessions: Sessions, ids: set<SessionId>, now: Time)
    requires HashesUnique(sessions)
    ensures HashesUnique(RevokedAmong(sessions, ids, now))
  {
    var after := RevokedAmong(sessions, ids, now);
    assert forall i :: i in after ==> after[i].tokenHash == sessions[i].tokenHash;
  }

  function FamilyIds(sessions: Sessions, family: FamilyId): set<SessionId> {
    set i | i in sessions && sessions[i].familyId == family
  }

  function UnrevokedOf(sessions: Sessions, user: UserId): set<SessionId> {
    set i | i in sessions && sessions[i].userId == user && sessions[i].revokedAt.None?
  }

  function NewSession(settings: Settings, user: UserId, family: FamilyId, raw: Token, now: Time): Session {
    Session(user, settings.hashToken(raw), family, now, now + settings.tokenLifetime, None, None)
  }

  /** Session `spentId` is revoked in favour of a successor `id` in its family. */
  function Rotated(
    settings: Settings, sessions: Sessions, spentId: SessionId, id: SessionId, raw: Token, now: Time): Sessions
    requires spentId in sessions
  {
    var spent := sessions[spentId];
    sessions[id := NewSession(settings, spent.userId, spent.familyId, raw, now)]
            [spentId := spent.(revokedAt := Some(now), replacedBy := Some(id))]
  }

  function WithoutUser(sessions: Sessions, user: UserId): Sessions {
    map i | i in sessions && sessions[i].userId != user :: sessions[i]
  }

  // ----- what presenting a token comes to -----

  datatype Presented =
    | Unknown
    | Replayed(family: FamilyId)
    | Expired
    | Spendable(session: SessionId)

  ghost function Present(sessions: Sessions, hash: TokenHash, now: Time): (r: Presented)
    ensures r.Spendable? ==> r.session in sessions && sessions[r.session].tokenHash == hash
                             && Live(sessions[r.session], now)
  {
    match SessionWithHash(sessions, hash)
    case None => Unknown
    case Some(i) =>
      if sessions[i].revokedAt.Some? then Replayed(sessions[i].familyId)
      else if sessions[i].expiresAt <= now then Expired
      else Spendable(i)
  }

  // ----- the operations -----

  method IssueInitial(
    db: Database, settings: Settings, user: UserId, id: SessionId, family: FamilyId, raw: Token, now: Time)
    requires db.Valid()
    requires id !in db.working.sessions && HashUnused(db.working.sessions, settings.hashToken(raw))
    modifies db`working
    ensures db.Valid()
    ensures db.working
         == old(db.working).(sessions := old(db.working.sessions)[id := NewSession(settings, user, family, raw, now)])
  {
    var session := Session(user, settings.hashToken(raw), family, now, now + settings.tokenLifetime, None, None);
    db.working := db.working.(sessions := db.working.sessions[id := session]);
  }

  /** The successor is flushed first, then the presented session is revoked and linked to it. */
  method Rotate(db: Database, settings: Settings, raw: Token, id: SessionId, newRaw: Token, now: Time)
    returns (r: Result<SessionId, RefreshError>)
    requires db.Valid()
    requires id !in db.working.sessions && HashUnused(db.working.sessions, settings.hashToken(newRaw))
    modifies db`working
    ensures db.Valid() && db.working.users == old(db.working.users)
    ensures match Present(old(db.working.sessions), settings.hashToken(raw), now)
            case Unknown => r == Err(InvalidRefreshToken) && db.working == old(db.working)
            case Expired => r == Err(InvalidRefreshToken) && db.working == old(db.working)
            case Replayed(family) =>
              && r == Err(ReplayDetected)
              && db.working.sessions
                 == RevokedAmong(old(db.working.sessions), FamilyIds(old(db.working.sessions), family), now)
            case Spendable(i) =>
              && r == Ok(id)
              && db.working.sessions == Rotated(settings, old(db.working.sessions), i, id, newRaw, now)
  {
    var found := db.SelectSession(settings.hashToken(raw));
    if found.None? {
      return Err(InvalidRefreshToken);
    }
    var session := db.working.sessions[found.value];
    if session.revokedAt.Some? {
      RevokeFamily(db, session.familyId, now);
      return Err(ReplayDetected);
    }
    if session.expiresAt <= now {
      return Err(InvalidRefreshToken);
    }
    var successor := Session(session.userId, settings.hashToken(newRaw), session.familyId,
                             now, now + settings.tokenLifetime, None, None);
    db.working := db.working.(sessions := db.working.sessions[id := successor]);
    session := session.(revokedAt := Some(now), replacedBy := Some(id));
    db.working := db.working.(sessions := db.working.sessions[found.value := session]);
    return Ok(id);
  }

  method RevokeFamily(db: Database, family: FamilyId, now: Time)
    requires db.Valid()
    modifies db`working
    ensures db.Valid()
    ensures db.working
         == old(db.working).(sessions :=
              RevokedAmong(old(db.working.sessions), FamilyIds(old(db.working.sessions), family), now))
  {
    var rows := set i | i in db.working.sessions && db.working.sessions[i].familyId == family;
    ghost var before := db.working.sessions;
    RevokedAmongNone(before, now);
    var todo := rows;
    assert rows - todo == {};
    while todo != {}
      invariant todo <= rows && db.committed == old(db.committed) && db.working.users == old(db.working.users)
      invariant db.working.sessions == RevokedAmong(before, rows - todo, now)
      decreases todo
    {
      var i :| i in todo;
      RevokedAmongOneMore(before, rows - todo, i, now);
      assert rows - (todo - {i}) == rows - todo + {i};
      var s := db.working.sessions[i];
      if s.revokedAt.None? {
        db.working := db.working.(sessions := db.working.sessions[i := s.(revokedAt := Some(now))]);
      }
      todo := todo - {i};
    }
    assert rows - todo == rows == FamilyIds(before, family);
    RevokedAmongKeepsHashes(before, rows, now);
  }

  method RevokeSession(db: Database, id: SessionId, now: Time)
    requires db.Valid() && id in db.working.sessions
    modifies db`working
    ensures db.Valid()
    ensures db.working == old(db.working).(sessions := RevokedAmong(old(db.working.sessions), {id}, now))
  {
    var s := db.working.sessions[id];
    ghost var before := db.working.sessions;
    if s.revokedAt.None? {
      db.working := db.working.(sessions := db.working.sessions[id := s.(revokedAt := Some(now))]);
    }
    assert db.working.sessions == RevokedAmong(before, {id}, now);
  }

  /** Every row that differs between two tables with the same keys. */
  ghost function ChangedRows(before: Sessions, after: Sessions): set<SessionId> {
    set i | i in before && (i !in after || after[i] != before[i])
  }

  /** The count returned is the number of rows changed; afterwards the user has no unrevoked
      session, and no other row has changed. */
  method RevokeAllForUser(db: Database, user: UserId, now: Time) returns (count: nat)
    requires db.Valid()
    modifies db`working
    ensures db.Valid()
    ensures db.working
         == old(db.working).(sessions :=
              RevokedAmong(old(db.working.sessions), UnrevokedOf(old(db.working.sessions), user), now))
    ensures count == |ChangedRows(old(db.working.sessions), db.working.sessions)|
    ensures UnrevokedOf(db.working.sessions, user) == {}
    ensures forall i :: i in old(db.working.sessions) && old(db.working.sessions)[i].userId != user
                        ==> i in db.working.sessions && db.working.sessions[i] == old(db.working.sessions)[i]
  {
    var rows := set i | i in db.working.sessions
                        && db.working.sessions[i].userId == user && db.working.sessions[i].revokedAt.None?;
    ghost var before := db.working.sessions;
    RevokedAmongNone(before, now);
    var todo := rows;
    assert rows - todo == {};
    while todo != {}
      invariant todo <= rows && db.committed == old(db.committed) && db.working.users == old(db.working.users)
      invariant db.working.sessions == RevokedAmong(before, rows - todo, now)
      decreases todo
    {
      var i :| i in todo;
      RevokedAmongOneMore(before, rows - todo, i, now);
      assert rows - (todo - {i}) == rows - todo + {i};
      db.working := db.working.(sessions :=
        db.working.sessions[i := db.working.sessions[i].(revokedAt := Some(now))]);
      todo := todo - {i};
    }
    assert rows - todo == rows == UnrevokedOf(before, user);
    RevokedAmongKeepsHashes(before, rows, now);
    RevokingAllOfUser(before, user, now);
    count := |rows|;
  }

  /** Stamping the unrevoked rows of a user changes these rows, leaves the user none, and keeps
      every other row. */
  lemma RevokingAllOfUser(sessions: Sessions, user: UserId, now: Time)
    ensures var after := RevokedAmong(sessions, UnrevokedOf(sessions, user), now);
            && ChangedRows(sessions, after) == UnrevokedOf(sessions, user)
            && UnrevokedOf(after, user) == {}
            && (forall i :: i in sessions && sessions[i].userId != user ==> i in after && after[i] == sessions[i])
  {
  }
}
