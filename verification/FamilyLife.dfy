/** What happens to a token and to its family over whole runs. */
module FamilyLife {
  import opened Prelude
  import opened AuthTables
  import opened RefreshTokens
  import opened AuthApi
  import opened AuthMachine

  // ----- rows are written once -----

  /** Nothing but the two revocation columns ever changes, and each of them only once. */
  predicate RowEvolves(before: Session, after: Session) {
    && after.(revokedAt := None, replacedBy := None) == before.(revokedAt := None, replacedBy := None)
    && (before.revokedAt.Some? ==> after.revokedAt == before.revokedAt)
    && (before.replacedBy.Some? ==> after.replacedBy == before.replacedBy)
  }

  ghost predicate RowsEvolve(before: Sessions, after: Sessions) {
    forall i :: i in before && i in after ==> RowEvolves(before[i], after[i])
  }

  lemma StepEvolvesRows(settings: Settings, s: State, step: Step)
    requires Inv(s) && Legal(settings, s, step)
    ensures RowsEvolve(s.tables.sessions, Next(settings, s, step).tables.sessions)
  {
    StepIsOneChange(settings, s, step);
    ChangeEvolvesRows(settings, s, ChangeOf(settings, s.tables, step), step.now);
  }

  lemma ChangeEvolvesRows(settings: Settings, s: State, change: Change, now: Time)
    requires Remembered(s.tables, s.used) && Chained(s.tables.sessions)
    requires ChangeFits(settings, s, change, now)
    ensures RowsEvolve(s.tables.sessions, Perform(settings, s.tables.sessions, change, now))
  {
    if change.Rotation? && s.tables.sessions[change.spentId].replacedBy.Some? {
      SuccessorInChain(s.tables.sessions, change.spentId, s.tables.sessions[change.spentId].replacedBy.value);
    }
  }

  /** The row of a used id that is gone stays gone. */
  lemma {:induction false} GoneStaysGone(settings: Settings, s: State, steps: seq<Step>, i: SessionId)
    requires Inv(s) && LegalRun(settings, s, steps)
    requires i in s.used.sessions && i !in s.tables.sessions
    ensures i !in Run(settings, s, steps).tables.sessions
    decreases |steps|
  {
    if steps != [] {
      StepIsOneChange(settings, s, steps[0]);
      StepKeepsInv(settings, s, steps[0]);
      GoneStaysGone(settings, Next(settings, s, steps[0]), steps[1..], i);
    }
  }

  lemma {:induction false} RunEvolvesRow(settings: Settings, s: State, steps: seq<Step>, i: SessionId)
    requires Inv(s) && LegalRun(settings, s, steps)
    requires i in s.tables.sessions && i in Run(settings, s, steps).tables.sessions
    ensures RowEvolves(s.tables.sessions[i], Run(settings, s, steps).tables.sessions[i])
    decreases |steps|
  {
    if steps != [] {
      var t := Next(settings, s, steps[0]);
      StepKeepsInv(settings, s, steps[0]);
      StepEvolvesRows(settings, s, steps[0]);
      if i !in t.tables.sessions {
        GoneStaysGone(settings, t, steps[1..], i);
      }
      RunEvolvesRow(settings, t, steps[1..], i);
    }
  }

  /** Over every run each row keeps its user, token hash, family and times, and the time of its
      revocation and its successor once they are set. */
  lemma RunEvolvesRows(settings: Settings, s: State, steps: seq<Step>)
    requires Inv(s) && LegalRun(settings, s, steps)
    ensures RowsEvolve(s.tables.sessions, Run(settings, s, steps).tables.sessions)
  {
    forall i | i in s.tables.sessions && i in Run(settings, s, steps).tables.sessions
      ensures RowEvolves(s.tables.sessions[i], Run(settings, s, steps).tables.sessions[i])
    {
      RunEvolvesRow(settings, s, steps, i);
    }
  }

  /** The token a request presents, if it presents one. */
  function PresentedToken(request: Request): Option<Token> {
    match request
    case Refresh(token, _, _) => Some(token)
    case Logout(token) => Some(token)
    case _ => None
  }

  /** A request that presents a token leaves every row outside the token's family as it is, adds
      none there, and removes no row at all. A token without a row changes nothing. */
  lemma TokenReachesOnlyItsFamily(settings: Settings, s: State, step: Step, token: Token)
    requires Inv(s) && Legal(settings, s, step)
    requires PresentedToken(step.request) == Some(token)
    ensures var before, after := s.tables.sessions, Next(settings, s, step).tables.sessions;
            match SessionWithHash(before, settings.hashToken(token))
            case None => after == before
            case Some(own) =>
              && before.Keys <= after.Keys
              && (forall i :: i in after && after[i].familyId != before[own].familyId
                              ==> i in before && after[i] == before[i])
  {
    StepIsOneChange(settings, s, step);
    var own := SessionWithHash(s.tables.sessions, settings.hashToken(token));
    if own.Some? {
      HashFindsItsRow(s.tables.sessions, own.value);
    }
  }

  lemma HashFindsItsRow(sessions: Sessions, i: SessionId)
    requires HashesUnique(sessions) && i in sessions
    ensures SessionWithHash(sessions, sessions[i].tokenHash) == Some(i)
  {
  }

  // ----- dead families -----

  /** The family was issued at some time, and none of its sessions can be used any more. */
  ghost predicate Dead(s: State, family: FamilyId) {
    && family in s.used.families
    && forall i :: i in s.tables.sessions && s.tables.sessions[i].familyId == family
                   ==> !Live(s.tables.sessions[i], s.clock)
  }

  lemma StepKeepsDead(settings: Settings, s: State, step: Step, family: FamilyId)
    requires Inv(s) && Legal(settings, s, step) && Dead(s, family)
    ensures Dead(Next(settings, s, step), family)
    ensures FamilyIds(Next(settings, s, step).tables.sessions, family) <= FamilyIds(s.tables.sessions, family)
  {
    StepIsOneChange(settings, s, step);
  }

  /** Once dead, a family is dead in every continuation and gets no session any more. */
  lemma {:induction false} DeadStaysDead(settings: Settings, s: State, steps: seq<Step>, family: FamilyId)
    requires Inv(s) && LegalRun(settings, s, steps) && Dead(s, family)
    ensures Dead(Run(settings, s, steps), family)
    ensures FamilyIds(Run(settings, s, steps).tables.sessions, family) <= FamilyIds(s.tables.sessions, family)
    decreases |steps|
  {
    if steps != [] {
      StepKeepsInv(settings, s, steps[0]);
      StepKeepsDead(settings, s, steps[0], family);
      DeadStaysDead(settings, Next(settings, s, steps[0]), steps[1..], family);
    }
  }

  /** Logout, revoke-one, revoke-all and a replay kill alike: revoking the one unrevoked session
      of a family leaves it dead. */
  lemma RevocationKillsFamily(settings: Settings, s: State, step: Step, i: SessionId)
    requires Inv(s) && Legal(settings, s, step)
    requires i in s.tables.sessions && s.tables.sessions[i].revokedAt == None
    requires i in Next(settings, s, step).tables.sessions
    requires Next(settings, s, step).tables.sessions[i].revokedAt.Some?
    requires !step.request.Refresh? || !Rotates(settings, s.tables, step.request.token, step.now)
    ensures Dead(Next(settings, s, step), s.tables.sessions[i].familyId)
  {
    StepIsOneChange(settings, s, step);
    var t, family := Next(settings, s, step), s.tables.sessions[i].familyId;
    forall j | j in t.tables.sessions && t.tables.sessions[j].familyId == family
      ensures !Live(t.tables.sessions[j], t.clock)
    {
      if j != i && s.tables.sessions[j].revokedAt == None {
        OneUnrevokedPerFamily(s, i, j);
      }
    }
  }

  /** A family in the table is dead exactly when the last session of its chain is not live. */
  lemma DeadWhenTailIs(s: State, family: FamilyId, chain: seq<SessionId>)
    requires Inv(s) && FamilyChain(s.tables.sessions, family, chain)
    ensures Dead(s, family) <==> !Live(s.tables.sessions[chain[|chain| - 1]], s.clock)
  {
    var sessions, tail := s.tables.sessions, chain[|chain| - 1];
    assert tail in chain;
    forall i | i in sessions && sessions[i].familyId == family && Live(sessions[i], s.clock)
      ensures i == tail
    {
      UnrevokedIsTail(sessions, chain, i);
    }
  }

  // ----- spent tokens -----

  /** A token that was issued and whose row, if it still exists, is revoked. */
  ghost predicate Spent(s: State, hash: TokenHash) {
    && hash in s.used.hashes
    && forall i :: i in s.tables.sessions && s.tables.sessions[i].tokenHash == hash
                   ==> s.tables.sessions[i].revokedAt.Some?
  }

  lemma RotationSpends(settings: Settings, s: State, step: Step)
    requires Inv(s) && Legal(settings, s, step)
    requires step.request.Refresh? && Rotates(settings, s.tables, step.request.token, step.now)
    ensures Spent(Next(settings, s, step), settings.hashToken(step.request.token))
  {
    StepIsOneChange(settings, s, step);
    var i := ChangeOf(settings, s.tables, step).spentId;
    assert forall j :: j in s.tables.sessions && s.tables.sessions[j].tokenHash == s.tables.sessions[i].tokenHash
                       ==> j == i;
  }

  lemma StepKeepsSpent(settings: Settings, s: State, step: Step, hash: TokenHash)
    requires Inv(s) && Legal(settings, s, step) && Spent(s, hash)
    ensures Spent(Next(settings, s, step), hash)
  {
    StepIsOneChange(settings, s, step);
  }

  lemma {:induction false} SpentStaysSpent(settings: Settings, s: State, steps: seq<Step>, hash: TokenHash)
    requires Inv(s) && LegalRun(settings, s, steps) && Spent(s, hash)
    ensures Spent(Run(settings, s, steps), hash)
    decreases |steps|
  {
    if steps != [] {
      StepKeepsInv(settings, s, steps[0]);
      StepKeepsSpent(settings, s, steps[0], hash);
      SpentStaysSpent(settings, Next(settings, s, steps[0]), steps[1..], hash);
    }
  }

  /** In any run a token is rotated at most once. */
  lemma AtMostOneRotation(settings: Settings, s: State, first: Step, between: seq<Step>, second: Step)
    requires Inv(s) && LegalRun(settings, s, [first] + between)
    requires first.request.Refresh? && Rotates(settings, s.tables, first.request.token, first.now)
    requires second.request.Refresh?
    requires settings.hashToken(second.request.token) == settings.hashToken(first.request.token)
    ensures !Rotates(settings, Run(settings, s, [first] + between).tables, second.request.token, second.now)
  {
    assert ([first] + between)[1..] == between;
    StepKeepsInv(settings, s, first);
    RotationSpends(settings, s, first);
    SpentStaysSpent(settings, Next(settings, s, first), between, settings.hashToken(first.request.token));
  }

  // ----- replay -----

  /** Issued, and every session that is still in the table is revoked. */
  ghost predicate Burnt(s: State, family: FamilyId) {
    && family in s.used.families
    && forall i :: i in s.tables.sessions && s.tables.sessions[i].familyId == family
                   ==> s.tables.sessions[i].revokedAt.Some?
  }

  lemma StepKeepsBurnt(settings: Settings, s: State, step: Step, family: FamilyId)
    requires Inv(s) && Legal(settings, s, step) && Burnt(s, family)
    ensures Burnt(Next(settings, s, step), family)
    ensures FamilyIds(Next(settings, s, step).tables.sessions, family) <= FamilyIds(s.tables.sessions, family)
  {
    StepIsOneChange(settings, s, step);
  }

  lemma {:induction false} BurntStaysBurnt(settings: Settings, s: State, steps: seq<Step>, family: FamilyId)
    requires Inv(s) && LegalRun(settings, s, steps) && Burnt(s, family)
    ensures Burnt(Run(settings, s, steps), family)
    ensures FamilyIds(Run(settings, s, steps).tables.sessions, family) <= FamilyIds(s.tables.sessions, family)
    decreases |steps|
  {
    if steps != [] {
      StepKeepsInv(settings, s, steps[0]);
      StepKeepsBurnt(settings, s, steps[0], family);
      BurntStaysBurnt(settings, Next(settings, s, steps[0]), steps[1..], family);
    }
  }

  /** Presenting the token of a revoked session: its whole family is revoked from then on, in
      every continuation, and no session is ever added to it. */
  lemma ReplayKillsFamily(settings: Settings, s: State, replay: Step, later: seq<Step>, i: SessionId)
    requires Inv(s) && LegalRun(settings, s, [replay] + later)
    requires i in s.tables.sessions && s.tables.sessions[i].revokedAt.Some?
    requires replay.request.Refresh? && settings.hashToken(replay.request.token) == s.tables.sessions[i].tokenHash
    ensures Burnt(Run(settings, s, [replay] + later), s.tables.sessions[i].familyId)
    ensures FamilyIds(Run(settings, s, [replay] + later).tables.sessions, s.tables.sessions[i].familyId)
         <= FamilyIds(s.tables.sessions, s.tables.sessions[i].familyId)
  {
    assert ([replay] + later)[1..] == later;
    HashFindsItsRow(s.tables.sessions, i);
    StepKeepsInv(settings, s, replay);
    BurntStaysBurnt(settings, Next(settings, s, replay), later, s.tables.sessions[i].familyId);
  }

  /** A session is in the table, or its family has no session left: deletion takes whole families. */
  ghost predicate RowOrNoFamily(s: State, i: SessionId, family: FamilyId) {
    && family in s.used.families
    && (if i in s.tables.sessions then s.tables.sessions[i].familyId == family
        else FamilyIds(s.tables.sessions, family) == {})
    && i in s.used.sessions
  }

  lemma StepKeepsRowOrNoFamily(settings: Settings, s: State, step: Step, i: SessionId, family: FamilyId)
    requires Inv(s) && Legal(settings, s, step) && RowOrNoFamily(s, i, family)
    ensures RowOrNoFamily(Next(settings, s, step), i, family)
  {
    StepIsOneChange(settings, s, step);
    ChangeKeepsRowOrNoFamily(settings, s, ChangeOf(settings, s.tables, step), step.now, i, family);
  }

  lemma ChangeKeepsRowOrNoFamily(
    settings: Settings, s: State, change: Change, now: Time, i: SessionId, family: FamilyId)
    requires Inv(s) && ChangeFits(settings, s, change, now) && RowOrNoFamily(s, i, family)
    ensures var after := Perform(settings, s.tables.sessions, change, now);
            if i in after then after[i].familyId == family else FamilyIds(after, family) == {}
  {
    var after := Perform(settings, s.tables.sessions, change, now);
    if i !in after {
      forall j | j in FamilyIds(after, family)
        ensures false
      {
        var known := if change.Rotation? && j == change.id then change.spentId else j;
        assert known in FamilyIds(s.tables.sessions, family);
        FamilyHasOneUser(s.tables.sessions, i, known);
      }
    }
  }

  lemma {:induction false} RunKeepsRowOrNoFamily(
    settings: Settings, s: State, steps: seq<Step>, i: SessionId, family: FamilyId)
    requires Inv(s) && LegalRun(settings, s, steps) && RowOrNoFamily(s, i, family)
    ensures RowOrNoFamily(Run(settings, s, steps), i, family)
    decreases |steps|
  {
    if steps != [] {
      StepKeepsInv(settings, s, steps[0]);
      StepKeepsRowOrNoFamily(settings, s, steps[0], i, family);
      RunKeepsRowOrNoFamily(settings, Next(settings, s, steps[0]), steps[1..], i, family);
    }
  }

  /** The promise of rotation with replay detection, over whole runs: after a token was rotated,
      presenting it once more does not rotate it; and from then on, in every continuation, all
      that is left of its family is revoked and nothing is ever added to it. */
  lemma SecondUseKillsFamily(
    settings: Settings, s: State, first: Step, between: seq<Step>, second: Step, later: seq<Step>)
    requires Inv(s) && LegalRun(settings, s, [first] + between + [second] + later)
    requires first.request.Refresh? && Rotates(settings, s.tables, first.request.token, first.now)
    requires second.request.Refresh?
    requires settings.hashToken(second.request.token) == settings.hashToken(first.request.token)
    ensures var i := Present(s.tables.sessions, settings.hashToken(first.request.token), first.now).session;
            var family := s.tables.sessions[i].familyId;
            var atSecond := Run(settings, s, [first] + between);
            var end := Run(settings, s, [first] + between + [second] + later);
            && !Rotates(settings, atSecond.tables, second.request.token, second.now)
            && Burnt(end, family)
            && FamilyIds(end.tables.sessions, family) <= FamilyIds(atSecond.tables.sessions, family)
  {
    var i := Present(s.tables.sessions, settings.hashToken(first.request.token), first.now).session;
    var family, upTo := s.tables.sessions[i].familyId, [first] + between;
    assert [first] + between + [second] + later == upTo + ([second] + later);
    RunConcat(settings, s, upTo, [second] + later);
    AtMostOneRotation(settings, s, first, between, second);
    RunKeepsInv(settings, s, upTo);
    RunKeepsRowOrNoFamily(settings, s, upTo, i, family);
    var atSecond := Run(settings, s, upTo);
    if i in atSecond.tables.sessions {
      RunEvolvesRow(settings, s, upTo, i);
      StillRevoked(settings, s, first, between, i);
      ReplayKillsFamily(settings, atSecond, second, later, i);
    } else {
      assert forall j :: j in atSecond.tables.sessions && atSecond.tables.sessions[j].familyId == family
                         ==> j in FamilyIds(atSecond.tables.sessions, family);
      BurntStaysBurnt(settings, atSecond, [second] + later, family);
    }
  }

  /** The session that a rotation spent is revoked as long as it exists. */
  lemma StillRevoked(settings: Settings, s: State, first: Step, between: seq<Step>, i: SessionId)
    requires Inv(s) && LegalRun(settings, s, [first] + between)
    requires first.request.Refresh? && Rotates(settings, s.tables, first.request.token, first.now)
    requires Present(s.tables.sessions, settings.hashToken(first.request.token), first.now) == Spendable(i)
    requires i in Run(settings, s, [first] + between).tables.sessions
    ensures Run(settings, s, [first] + between).tables.sessions[i].revokedAt.Some?
  {
    assert ([first] + between)[1..] == between;
    StepKeepsInv(settings, s, first);
    RunEvolvesRow(settings, Next(settings, s, first), between, i);
  }

  // ----- isolation -----

  /** The requests that change the row of an unrevoked session: spending it, replaying a token of
      its family, logging out with its token, its owner revoking it or deleting the account, and
      revoking all of its owner's sessions. What the owner does only counts while active. */
  ghost predicate AffectsSession(settings: Settings, tables: Tables, step: Step, i: SessionId)
    requires i in tables.sessions
  {
    var own := tables.sessions[i];
    match step.request
    case Refresh(token, _, _) =>
      (match Present(tables.sessions, settings.hashToken(token), step.now)
       case Spendable(j) => j == i && Authenticated(tables.users, own.userId)
       case Replayed(family) => family == own.familyId
       case _ => false)
    case Logout(token) => settings.hashToken(token) == own.tokenHash
    case RevokeOne(caller, target) => target == i && caller == own.userId && Authenticated(tables.users, caller)
    case RevokeAll(user) => user == own.userId
    case DeleteMe(caller) => caller == own.userId && Authenticated(tables.users, caller)
    case _ => false
  }

  /** The requests that remove a user or change the user's status. */
  predicate AffectsStatus(tables: Tables, step: Step, user: UserId)
    requires user in tables.users
  {
    match step.request
    case DeleteMe(caller) => caller == user && Authenticated(tables.users, caller)
    case SetStatus(target, status) => target == user && status != tables.users[user].status
    case _ => false
  }

  ghost predicate Affects(settings: Settings, tables: Tables, step: Step, i: SessionId) {
    && i in tables.sessions
    && (AffectsSession(settings, tables, step, i)
        || (tables.sessions[i].userId in tables.users && AffectsStatus(tables, step, tables.sessions[i].userId)))
  }

  /** A session with the given row, of a user with the given status. */
  ghost predicate Holds(tables: Tables, i: SessionId, row: Session, status: Status) {
    && i in tables.sessions && tables.sessions[i] == row
    && row.userId in tables.users && tables.users[row.userId].status == status
  }

  predicate Spares(change: Change, i: SessionId, row: Session) {
    match change
    case Rotation(spentId, _, _) => spentId != i
    case Revocation(ids) => i !in ids
    case Deletion(user) => user != row.userId
    case _ => true
  }

  lemma ChangeSparesExactlyWhen(settings: Settings, s: State, change: Change, now: Time, i: SessionId)
    requires Remembered(s.tables, s.used) && ChangeFits(settings, s, change, now)
    requires i in s.tables.sessions && s.tables.sessions[i].revokedAt == None
    ensures var after := Perform(settings, s.tables.sessions, change, now);
            (i in after && after[i] == s.tables.sessions[i]) <==> Spares(change, i, s.tables.sessions[i])
  {
  }

  lemma ChangeAffectsExactlyWhen(settings: Settings, tables: Tables, step: Step, i: SessionId)
    requires HashesUnique(tables.sessions)
    requires i in tables.sessions && tables.sessions[i].revokedAt == None
    ensures Spares(ChangeOf(settings, tables, step), i, tables.sessions[i])
       <==> !AffectsSession(settings, tables, step, i)
  {
    HashFindsItsRow(tables.sessions, i);
  }

  lemma RowKeptExactlyWhen(settings: Settings, s: State, step: Step, i: SessionId)
    requires Inv(s) && Legal(settings, s, step)
    requires i in s.tables.sessions && s.tables.sessions[i].revokedAt == None
    ensures var after := Apply(settings, s.tables, step).sessions;
            (i in after && after[i] == s.tables.sessions[i]) <==> !AffectsSession(settings, s.tables, step, i)
  {
    StepIsOneChange(settings, s, step);
    ChangeSparesExactlyWhen(settings, s, ChangeOf(settings, s.tables, step), step.now, i);
    ChangeAffectsExactlyWhen(settings, s.tables, step, i);
  }

  lemma StatusKeptExactlyWhen(settings: Settings, s: State, step: Step, user: UserId)
    requires Remembered(s.tables, s.used) && Legal(settings, s, step) && user in s.tables.users
    ensures var after := Apply(settings, s.tables, step).users;
            (user in after && after[user].status == s.tables.users[user].status)
            <==> !AffectsStatus(s.tables, step, user)
  {
  }

  /** One request, of anybody: an unrevoked session stays as it is and its owner in the same status
      exactly when the request is none of those that affect them. */
  lemma SessionKeptExactlyWhen(
    settings: Settings, s: State, step: Step, i: SessionId, row: Session, status: Status)
    requires Inv(s) && Legal(settings, s, step)
    requires Holds(s.tables, i, row, status) && row.revokedAt == None
    ensures Holds(Apply(settings, s.tables, step), i, row, status) <==> !Affects(settings, s.tables, step, i)
  {
    RowKeptExactlyWhen(settings, s, step, i);
    StatusKeptExactlyWhen(settings, s, step, row.userId);
  }

  /** None of the steps affects the session or its owner's status. */
  ghost predicate Unaffected(settings: Settings, s: State, steps: seq<Step>, i: SessionId)
    decreases |steps|
  {
    steps == []
    || (!Affects(settings, s.tables, steps[0], i)
        && Unaffected(settings, Next(settings, s, steps[0]), steps[1..], i))
  }

  lemma {:induction false} UnaffectedRunKeepsSession(
    settings: Settings, s: State, steps: seq<Step>, i: SessionId, row: Session, status: Status)
    requires Inv(s) && LegalRun(settings, s, steps) && Unaffected(settings, s, steps, i)
    requires Holds(s.tables, i, row, status) && row.revokedAt == None
    ensures Holds(Run(settings, s, steps).tables, i, row, status)
    decreases |steps|
  {
    if steps != [] {
      StepKeepsInv(settings, s, steps[0]);
      SessionKeptExactlyWhen(settings, s, steps[0], i, row, status);
      UnaffectedRunKeepsSession(settings, Next(settings, s, steps[0]), steps[1..], i, row, status);
    }
  }

  /** Whatever is requested for however long, short of the requests that affect the session or its
      owner's status: the token of an active user's session rotates at any time before it expires. */
  lemma UnaffectedTokenRotates(settings: Settings, s: State, steps: seq<Step>, i: SessionId, last: Step)
    requires Inv(s) && LegalRun(settings, s, steps) && Unaffected(settings, s, steps, i)
    requires i in s.tables.sessions && Live(s.tables.sessions[i], last.now)
    requires Authenticated(s.tables.users, s.tables.sessions[i].userId)
    requires last.request.Refresh? && settings.hashToken(last.request.token) == s.tables.sessions[i].tokenHash
    ensures Rotates(settings, Run(settings, s, steps).tables, last.request.token, last.now)
  {
    UnaffectedRunKeepsSession(settings, s, steps, i, s.tables.sessions[i], Active);
    RunKeepsInv(settings, s, steps);
    HashFindsItsRow(Run(settings, s, steps).tables.sessions, i);
  }

  /** The session a step issues and its raw token, if it issues one. */
  ghost function Issued(settings: Settings, tables: Tables, step: Step): Option<(SessionId, Token)> {
    match step.request
    case Login(email, password, session, _, raw) =>
      if LoginAttempt(settings, tables.users, email, password, step.now).LoggedIn? then Some((session, raw)) else None
    case Refresh(token, session, raw) =>
      if Rotates(settings, tables, token, step.now) then Some((session, raw)) else None
    case _ => None
  }

  lemma IssuedSessionIsUsable(settings: Settings, s: State, issue: Step)
    requires Inv(s) && Legal(settings, s, issue) && Issued(settings, s.tables, issue).Some?
    ensures var t, (i, raw) := Next(settings, s, issue).tables, Issued(settings, s.tables, issue).value;
            && i in t.sessions && Holds(t, i, t.sessions[i], Active)
            && t.sessions[i].tokenHash == settings.hashToken(raw)
            && t.sessions[i].revokedAt == None
            && t.sessions[i].expiresAt == issue.now + settings.tokenLifetime
  {
    StepIsOneChange(settings, s, issue);
    StepIsOneUserChange(settings, s, issue);
  }

  /** A token issued by a login or by a rotation, and left alone since, rotates exactly until its
      lifetime is over. */
  lemma IssuedTokenRotatesUntilExpiry(settings: Settings, s: State, issue: Step, steps: seq<Step>, last: Step)
    requires Inv(s) && LegalRun(settings, s, [issue] + steps)
    requires Issued(settings, s.tables, issue).Some?
    requires Unaffected(settings, Next(settings, s, issue), steps, Issued(settings, s.tables, issue).value.0)
    requires last.request.Refresh?
    requires settings.hashToken(last.request.token) == settings.hashToken(Issued(settings, s.tables, issue).value.1)
    ensures Rotates(settings, Run(settings, s, [issue] + steps).tables, last.request.token, last.now)
       <==> last.now < issue.now + settings.tokenLifetime
  {
    var t, i := Next(settings, s, issue), Issued(settings, s.tables, issue).value.0;
    assert ([issue] + steps)[1..] == steps;
    StepKeepsInv(settings, s, issue);
    IssuedSessionIsUsable(settings, s, issue);
    UnaffectedRunKeepsSession(settings, t, steps, i, t.tables.sessions[i], Active);
    RunKeepsInv(settings, t, steps);
    HashFindsItsRow(Run(settings, t, steps).tables.sessions, i);
  }
}
