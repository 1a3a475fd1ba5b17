/** Refreshing as a transaction: what a rejected refresh leaves behind. */
module RefreshTransactions {
  import opened Prelude
  import opened AuthTables
  import opened RefreshTokens
  import opened AuthApi
  import opened AuthMachine
  import opened FamilyLife

  /** The token is that of a revoked session whose family still has an unrevoked one. */
  ghost predicate Burns(settings: Settings, sessions: Sessions, token: Token) {
    exists i, j ::
      && i in sessions && j in sessions && sessions[i].familyId == sessions[j].familyId
      && sessions[i].tokenHash == settings.hashToken(token)
      && sessions[i].revokedAt.Some? && sessions[j].revokedAt == None
  }

  /** A rejected refresh changes the committed tables exactly when it is the replay of a token
      whose family still has an unrevoked session. */
  lemma RejectionChangesExactlyWhen(settings: Settings, s: State, step: Step)
    requires Inv(s) && Legal(settings, s, step)
    requires step.request.Refresh? && !Rotates(settings, s.tables, step.request.token, step.now)
    ensures Next(settings, s, step).tables != s.tables <==> Burns(settings, s.tables.sessions, step.request.token)
  {
    var sessions, after := s.tables.sessions, Next(settings, s, step).tables.sessions;
    match Present(sessions, settings.hashToken(step.request.token), step.now)
    case Replayed(family) =>
      if j :| j in sessions && sessions[j].familyId == family && sessions[j].revokedAt == None {
        assert after[j].revokedAt.Some?;
      } else {
        assert after == sessions;
      }
    case _ =>
  }

  /** A refresh that neither rotates nor burns. */
  ghost predicate Futile(settings: Settings, tables: Tables, step: Step) {
    && step.request.Refresh?
    && !Rotates(settings, tables, step.request.token, step.now)
    && !Burns(settings, tables.sessions, step.request.token)
  }

  /** Any number of refreshes that neither rotate nor burn leaves nothing behind. */
  lemma {:induction false} FutileRefreshesChangeNothing(settings: Settings, s: State, steps: seq<Step>)
    requires Inv(s) && LegalRun(settings, s, steps)
    requires forall k :: 0 <= k < |steps| ==> Futile(settings, s.tables, steps[k])
    ensures Run(settings, s, steps).tables == s.tables
    decreases |steps|
  {
    if steps != [] {
      StepKeepsInv(settings, s, steps[0]);
      RejectionChangesExactlyWhen(settings, s, steps[0]);
      FutileRefreshesChangeNothing(settings, Next(settings, s, steps[0]), steps[1..]);
    }
  }

  /** A replay touches no user, adds and removes no session, and stamps exactly the unrevoked
      sessions of the one family, with the time of the request. */
  lemma ReplayFrame(settings: Settings, s: State, step: Step, i: SessionId)
    requires Inv(s) && Legal(settings, s, step)
    requires i in s.tables.sessions && s.tables.sessions[i].revokedAt.Some?
    requires step.request.Refresh? && settings.hashToken(step.request.token) == s.tables.sessions[i].tokenHash
    ensures var before, after := s.tables.sessions, Next(settings, s, step).tables.sessions;
            && Next(settings, s, step).tables.users == s.tables.users
            && after.Keys == before.Keys
            && forall j :: j in before ==>
                 if before[j].familyId == before[i].familyId && before[j].revokedAt == None
                 then after[j] == before[j].(revokedAt := Some(step.now))
                 else after[j] == before[j]
  {
    HashFindsItsRow(s.tables.sessions, i);
  }

  // ----- a disabled user -----

  /** The step presents the token of one of the user's unrevoked sessions. */
  ghost predicate OwnAttempt(settings: Settings, sessions: Sessions, user: UserId, step: Step) {
    && step.request.Refresh?
    && exists i :: i in sessions && sessions[i].userId == user && sessions[i].revokedAt == None
                   && sessions[i].tokenHash == settings.hashToken(step.request.token)
  }

  ghost predicate OwnAttempts(settings: Settings, sessions: Sessions, user: UserId, steps: seq<Step>) {
    forall k :: 0 <= k < |steps| ==> OwnAttempt(settings, sessions, user, steps[k])
  }

  lemma OwnAttemptIsFutile(settings: Settings, tables: Tables, user: UserId, step: Step)
    requires HashesUnique(tables.sessions) && OwnAttempt(settings, tables.sessions, user, step)
    requires user in tables.users && tables.users[user].status == Disabled
    ensures Futile(settings, tables, step)
  {
  }

  /** However often a disabled user's tokens are tried, nothing that was flushed is committed. */
  lemma DisabledAttemptsChangeNothing(settings: Settings, s: State, user: UserId, steps: seq<Step>)
    requires Inv(s) && LegalRun(settings, s, steps)
    requires user in s.tables.users && s.tables.users[user].status == Disabled
    requires OwnAttempts(settings, s.tables.sessions, user, steps)
    ensures Run(settings, s, steps).tables == s.tables
  {
    forall k | 0 <= k < |steps|
      ensures Futile(settings, s.tables, steps[k])
    {
      OwnAttemptIsFutile(settings, s.tables, user, steps[k]);
    }
    FutileRefreshesChangeNothing(settings, s, steps);
  }

  /** Disabling an account and enabling it again costs its user no token. The interval may hold any
      requests of the user and of others, failed logins, attempts with the user's own tokens and
      other families' traffic included; what it must not hold is a request that affects the session
      or the status of a disabled user: a replay of its family, a logout with its token, a
      revocation of all the user's sessions, an earlier enabling. Then the session is as it was,
      and unless it has expired its token rotates. */
  lemma DisableEnableKeepsTokens(
    settings: Settings, s: State, off: Step, tries: seq<Step>, on: Step, last: Step, i: SessionId)
    requires Inv(s) && LegalRun(settings, s, [off] + tries + [on])
    requires i in s.tables.sessions && Live(s.tables.sessions[i], last.now)
    requires off.request == SetStatus(s.tables.sessions[i].userId, Disabled)
    requires on.request == SetStatus(s.tables.sessions[i].userId, Active)
    requires Unaffected(settings, Next(settings, s, off), tries, i)
    requires last.request.Refresh? && settings.hashToken(last.request.token) == s.tables.sessions[i].tokenHash
    ensures var end := Run(settings, s, [off] + tries + [on]).tables;
            && i in end.sessions && end.sessions[i] == s.tables.sessions[i]
            && Rotates(settings, end, last.request.token, last.now)
  {
    var disabled, row := Next(settings, s, off), s.tables.sessions[i];
    RunConcat(settings, s, [off] + tries, [on]);
    RunConcat(settings, s, [off], tries);
    RunOfOne(settings, s, off);
    StepKeepsInv(settings, s, off);
    UnaffectedRunKeepsSession(settings, disabled, tries, i, row, Disabled);
    RunKeepsInv(settings, disabled, tries);
    EnablingRestores(settings, Run(settings, disabled, tries), on, last, i, row);
  }

  /** Once the user is enabled again, the token of a live session rotates. */
  lemma EnablingRestores(settings: Settings, s: State, on: Step, last: Step, i: SessionId, row: Session)
    requires Inv(s) && Legal(settings, s, on) && Holds(s.tables, i, row, Disabled) && Live(row, last.now)
    requires on.request == SetStatus(row.userId, Active)
    requires last.request.Refresh? && settings.hashToken(last.request.token) == row.tokenHash
    ensures var end := Run(settings, s, [on]).tables;
            && i in end.sessions && end.sessions[i] == row
            && Rotates(settings, end, last.request.token, last.now)
  {
    RunOfOne(settings, s, on);
    HashFindsItsRow(s.tables.sessions, i);
  }

  /** The user's own attempts are among the requests the interval may hold. */
  lemma OwnAttemptAffectsNothing(settings: Settings, s: State, user: UserId, step: Step, i: SessionId)
    requires Inv(s) && OwnAttempt(settings, s.tables.sessions, user, step)
    requires user in s.tables.users && s.tables.users[user].status == Disabled
    ensures !Affects(settings, s.tables, step, i)
  {
    var j :| j in s.tables.sessions && s.tables.sessions[j].userId == user && s.tables.sessions[j].revokedAt == None
             && s.tables.sessions[j].tokenHash == settings.hashToken(step.request.token);
    HashFindsItsRow(s.tables.sessions, j);
  }
}
