/** What each request commits, row by row and in terms of the tables' columns alone: who gets in,
    which rows change, and that nothing else does. */
module RequestEffects {
  import opened Prelude
  import opened AuthTables
  import opened RefreshTokens
  import opened AuthApi
  import opened AuthMachine
  import opened FamilyLife
  import opened Lockout

  // ----- login -----

  /** The stored lock of the user has not run out. */
  predicate StillLocked(user: User, now: Time) {
    user.lockedUntil.Some? && user.lockedUntil.value > now
  }

  /** The account is active and the password verifies against the stored hash. */
  predicate RightPassword(settings: Settings, user: User, password: string) {
    user.status == Active && settings.verifyPassword(user.passwordHash, password)
  }

  /** A known user is logged in exactly when the account is not locked, is active, and the password
      verifies; a failure is counted exactly when it is not locked and one of the others fails. */
  lemma LoginOutcomeExactlyWhen(settings: Settings, s: State, user: UserId, password: string, now: Time)
    requires Inv(s) && user in s.tables.users
    ensures var row := s.tables.users[user];
            var outcome := LoginAttempt(settings, s.tables.users, row.email, password, now);
            && (outcome == LoggedIn(user) <==>
                  && (row.lockedUntil.Some? ==> row.lockedUntil.value <= now)
                  && row.status == Active && settings.verifyPassword(row.passwordHash, password))
            && (outcome == CountedFailure(user) <==>
                  && (row.lockedUntil.Some? ==> row.lockedUntil.value <= now)
                  && !(row.status == Active && settings.verifyPassword(row.passwordHash, password)))
  {
    var found := UserWithEmail(s.tables.users, s.tables.users[user].email);
    assert found.Some? && found.value == user;
  }

  /** Nobody is logged in, and nothing is counted, under an email without a user. */
  lemma UnknownEmailChangesNothing(settings: Settings, s: State, step: Step)
    requires Legal(settings, s, step) && step.request.Login?
    requires forall u :: u in s.tables.users ==> s.tables.users[u].email != step.request.email
    ensures Next(settings, s, step).tables == s.tables
    ensures LoginAttempt(settings, s.tables.users, step.request.email, step.request.password, step.now) == NoSuchUser
  {
  }

  /** What a login request does to the tables, in its three cases: nothing while the account is
      locked; a fresh session of a fresh family and a reset counter on the right password; one more
      counted failure, with a lock from the limit on, on anything else. */
  lemma LoginEffect(settings: Settings, s: State, step: Step, user: UserId)
    requires Inv(s) && Legal(settings, s, step) && step.request.Login?
    requires user in s.tables.users && step.request.email == s.tables.users[user].email
    ensures var row, after := s.tables.users[user], Next(settings, s, step).tables;
            var Login(_, password, session, family, raw) := step.request;
            if StillLocked(row, step.now) then after == s.tables
            else if RightPassword(settings, row, password) then
              && after.users == s.tables.users[user :=
                   User(row.email, row.passwordHash, row.status, 0, None, Some(step.now))]
              && after.sessions == s.tables.sessions[session :=
                   Session(user, settings.hashToken(raw), family,
                           step.now, step.now + settings.tokenLifetime, None, None)]
            else
              && after.sessions == s.tables.sessions
              && after.users == s.tables.users[user :=
                   User(row.email, row.passwordHash, row.status, row.failedLoginCount + 1,
                        if row.failedLoginCount + 1 >= settings.maxFailedLogins
                        then Some(step.now + settings.lockout) else row.lockedUntil,
                        row.lastLoginAt)]
  {
    LoginOutcomeExactlyWhen(settings, s, user, step.request.password, step.now);
  }

  /** The events that the lockout results count: a failure of a user is a login under the user's
      email that is not locked out and not accepted; a login is one that is accepted. */
  lemma EventsExactlyWhen(settings: Settings, s: State, step: Step, user: UserId)
    requires Inv(s) && user in s.tables.users
    ensures var row := s.tables.users[user];
            var mine := step.request.Login? && step.request.email == row.email && !StillLocked(row, step.now);
            && (Fails(settings, s, step, user) <==> mine && !RightPassword(settings, row, step.request.password))
            && (LogsIn(settings, s, step, user) <==> mine && RightPassword(settings, row, step.request.password))
  {
    if step.request.Login? && step.request.email == s.tables.users[user].email {
      LoginOutcomeExactlyWhen(settings, s, user, step.request.password, step.now);
    }
  }

  // ----- registration -----

  /** A registration adds one active user with the given email and hash, no failure and no lock,
      unless the email is taken; then it changes nothing. */
  lemma RegisterEffect(settings: Settings, s: State, step: Step)
    requires Legal(settings, s, step) && step.request.Register?
    ensures var after := Next(settings, s, step).tables;
            && after.sessions == s.tables.sessions
            && after.users
               == if exists u :: u in s.tables.users && s.tables.users[u].email == step.request.email
                  then s.tables.users
                  else s.tables.users[step.request.newUser :=
                         User(step.request.email, step.request.passwordHash, Active, 0, None, None)]
  {
  }

  /** After a registration with a new email, and as long as nobody touches the account, a password
      logs in at any time exactly when it verifies against the registered hash. */
  lemma RegisteredUserLogsIn(
    settings: Settings, s: State, register: Step, between: seq<Step>, password: string, now: Time)
    requires Inv(s) && LegalRun(settings, s, [register] + between)
    requires register.request.Register?
    requires forall u :: u in s.tables.users ==> s.tables.users[u].email != register.request.email
    requires Untouched(settings, Next(settings, s, register), between, register.request.newUser)
    ensures LoginAttempt(settings, Run(settings, s, [register] + between).tables.users,
                         register.request.email, password, now) == LoggedIn(register.request.newUser)
       <==> settings.verifyPassword(register.request.passwordHash, password)
  {
    var t, user := Next(settings, s, register), register.request.newUser;
    assert ([register] + between)[1..] == between;
    RegisterEffect(settings, s, register);
    StepKeepsInv(settings, s, register);
    UntouchedRowStays(settings, t, between, user);
    RunKeepsInv(settings, t, between);
    LoginOutcomeExactlyWhen(settings, Run(settings, t, between), user, password, now);
  }

  // ----- refresh -----

  /** A refresh issues a successor exactly when some session has the token's hash, is not revoked,
      has not expired, and belongs to an active user. */
  lemma RotatesExactlyWhen(settings: Settings, s: State, token: Token, now: Time)
    requires Inv(s)
    ensures Rotates(settings, s.tables, token, now)
       <==> exists i ::
              && i in s.tables.sessions && s.tables.sessions[i].tokenHash == settings.hashToken(token)
              && s.tables.sessions[i].revokedAt == None && s.tables.sessions[i].expiresAt > now
              && s.tables.users[s.tables.sessions[i].userId].status == Active
  {
    if i :| i in s.tables.sessions && s.tables.sessions[i].tokenHash == settings.hashToken(token) {
      HashFindsItsRow(s.tables.sessions, i);
    }
  }

  /** What presenting the token of session `i` does. A live session of an active user is revoked now
      and linked to its successor, which is new in every column but user and family; a revoked one
      has the unrevoked rows of its family stamped; anything else changes nothing. */
  lemma RefreshEffect(settings: Settings, s: State, step: Step, i: SessionId)
    requires Inv(s) && Legal(settings, s, step) && step.request.Refresh?
    requires i in s.tables.sessions && s.tables.sessions[i].tokenHash == settings.hashToken(step.request.token)
    ensures var before, after := s.tables.sessions, Next(settings, s, step).tables;
            var own, Refresh(_, session, raw) := before[i], step.request;
            && after.users == s.tables.users
            && (if own.revokedAt.Some? then
                  && after.sessions.Keys == before.Keys
                  && forall j :: j in before ==>
                       if before[j].familyId == own.familyId && before[j].revokedAt == None
                       then after.sessions[j] == before[j].(revokedAt := Some(step.now))
                       else after.sessions[j] == before[j]
                else if own.expiresAt > step.now && s.tables.users[own.userId].status == Active then
                  && session != i
                  && after.sessions.Keys == before.Keys + {session}
                  && after.sessions[i] == own.(revokedAt := Some(step.now), replacedBy := Some(session))
                  && after.sessions[session]
                     == Session(own.userId, settings.hashToken(raw), own.familyId,
                                step.now, step.now + settings.tokenLifetime, None, None)
                  && forall j :: j in before && j != i ==> after.sessions[j] == before[j]
                else after.sessions == before)
  {
    HashFindsItsRow(s.tables.sessions, i);
  }

  lemma UnknownTokenChangesNothing(settings: Settings, s: State, step: Step)
    requires Legal(settings, s, step) && (step.request.Refresh? || step.request.Logout?)
    requires forall i :: i in s.tables.sessions
                         ==> s.tables.sessions[i].tokenHash != settings.hashToken(step.request.token)
    ensures Next(settings, s, step).tables == s.tables
  {
  }

  // ----- revocation and the rest -----

  /** The rows of `after` are those of `before`, the unrevoked ones among `ids` stamped `now`. */
  ghost predicate Stamped(before: Sessions, after: Sessions, ids: set<SessionId>, now: Time) {
    && after.Keys == before.Keys
    && forall j :: j in before ==>
         after[j] == if j in ids && before[j].revokedAt == None then before[j].(revokedAt := Some(now)) else before[j]
  }

  /** A logout stamps the session with the presented token's hash, unless it was revoked before,
      and nothing else; users stay as they are. */
  lemma LogoutEffect(settings: Settings, s: State, step: Step)
    requires Inv(s) && Legal(settings, s, step) && step.request.Logout?
    ensures Next(settings, s, step).tables.users == s.tables.users
    ensures var hash := settings.hashToken(step.request.token);
            Stamped(s.tables.sessions, Next(settings, s, step).tables.sessions,
                    (set j | j in s.tables.sessions && s.tables.sessions[j].tokenHash == hash), step.now)
  {
    var hash := settings.hashToken(step.request.token);
    if i :| i in s.tables.sessions && s.tables.sessions[i].tokenHash == hash {
      HashFindsItsRow(s.tables.sessions, i);
    }
  }

  /** Revoking one session stamps it if it is the caller's own and the caller is active, and
      otherwise changes nothing. */
  lemma RevokeOneEffect(settings: Settings, s: State, step: Step)
    requires Inv(s) && Legal(settings, s, step) && step.request.RevokeOne?
    ensures Next(settings, s, step).tables.users == s.tables.users
    ensures var RevokeOne(caller, target) := step.request;
            Stamped(s.tables.sessions, Next(settings, s, step).tables.sessions,
                    (set j | j in s.tables.sessions && j == target && s.tables.sessions[j].userId == caller
                             && s.tables.users[caller].status == Active),
                    step.now)
  {
  }

  /** Revoking all sessions of a user stamps every unrevoked one and no other user's. */
  lemma RevokeAllEffect(settings: Settings, s: State, step: Step)
    requires Legal(settings, s, step) && step.request.RevokeAll?
    ensures Next(settings, s, step).tables.users == s.tables.users
    ensures Stamped(s.tables.sessions, Next(settings, s, step).tables.sessions,
                    (set j | j in s.tables.sessions && s.tables.sessions[j].userId == step.request.user), step.now)
  {
  }

  /** An active caller is deleted with exactly the caller's sessions; another caller deletes nothing. */
  lemma DeleteMeEffect(settings: Settings, s: State, step: Step)
    requires Legal(settings, s, step) && step.request.DeleteMe?
    ensures var caller, after := step.request.caller, Next(settings, s, step).tables;
            if caller in s.tables.users && s.tables.users[caller].status == Active then
              && after.users.Keys == s.tables.users.Keys - {caller}
              && (forall u :: u in after.users ==> after.users[u] == s.tables.users[u])
              && (forall i :: i in after.sessions <==> i in s.tables.sessions && s.tables.sessions[i].userId != caller)
              && (forall i :: i in after.sessions ==> after.sessions[i] == s.tables.sessions[i])
            else after == s.tables
  {
  }

  /** Setting a status changes that one column of an existing user. */
  lemma SetStatusEffect(settings: Settings, s: State, step: Step)
    requires Legal(settings, s, step) && step.request.SetStatus?
    ensures var after := Next(settings, s, step).tables;
            && after.sessions == s.tables.sessions
            && after.users.Keys == s.tables.users.Keys
            && forall u :: u in s.tables.users ==>
                 var row := s.tables.users[u];
                 after.users[u] == User(row.email, row.passwordHash,
                                        if u == step.request.user then step.request.status else row.status,
                                        row.failedLoginCount, row.lockedUntil, row.lastLoginAt)
  {
  }
}
