/** Whole runs of the authentication API: serial requests under a clock that does not go back,
    with generated ids and token hashes that never repeat. */
module AuthMachine {
  import opened Prelude
  import opened AuthTables
  import opened RefreshTokens
  import opened AuthApi

  /** Everything that was ever generated; deleted rows do not free their ids. */
  datatype Used = Used(users: set<UserId>, sessions: set<SessionId>, families: set<FamilyId>, hashes: set<TokenHash>)

  datatype State = State(tables: Tables, clock: Time, used: Used)

  predicate Initial(s: State) {
    s.tables == Tables(map[], map[]) && s.used == Used({}, {}, {}, {})
  }

  /** The clock moves on, and what the request generates is new. */
  ghost predicate Legal(settings: Settings, s: State, step: Step) {
    && step.now >= s.clock
    && match step.request
       case Register(_, _, newUser) => newUser !in s.used.users
       case Login(_, _, session, family, raw) =>
         session !in s.used.sessions && family !in s.used.families && settings.hashToken(raw) !in s.used.hashes
       case Refresh(_, session, raw) =>
         session !in s.used.sessions && settings.hashToken(raw) !in s.used.hashes
       case _ => true
  }

  function UsedAfter(settings: Settings, used: Used, request: Request): Used {
    match request
    case Register(_, _, newUser) => used.(users := used.users + {newUser})
    case Login(_, _, session, family, raw) =>
      used.(sessions := used.sessions + {session}, families := used.families + {family},
            hashes := used.hashes + {settings.hashToken(raw)})
    case Refresh(_, session, raw) =>
      used.(sessions := used.sessions + {session}, hashes := used.hashes + {settings.hashToken(raw)})
    case _ => used
  }

  ghost function Next(settings: Settings, s: State, step: Step): State {
    State(Apply(settings, s.tables, step), step.now, UsedAfter(settings, s.used, step.request))
  }

  ghost function Run(settings: Settings, s: State, steps: seq<Step>): State
    decreases |steps|
  {
    if steps == [] then s else Run(settings, Next(settings, s, steps[0]), steps[1..])
  }

  ghost predicate LegalRun(settings: Settings, s: State, steps: seq<Step>)
    decreases |steps|
  {
    steps == [] || (Legal(settings, s, steps[0]) && LegalRun(settings, Next(settings, s, steps[0]), steps[1..]))
  }

  lemma RunOfOne(settings: Settings, s: State, step: Step)
    ensures Run(settings, s, [step]) == Next(settings, s, step)
    ensures LegalRun(settings, s, [step]) <==> Legal(settings, s, step)
  {
  }

  lemma {:induction false} RunConcat(settings: Settings, s: State, a: seq<Step>, b: seq<Step>)
    ensures Run(settings, s, a + b) == Run(settings, Run(settings, s, a), b)
    ensures LegalRun(settings, s, a + b) <==> LegalRun(settings, s, a) && LegalRun(settings, Run(settings, s, a), b)
    decreases |a|
  {
    if a == [] {
      assert a + b == b;
    } else {
      assert (a + b)[1..] == a[1..] + b;
      RunConcat(settings, Next(settings, s, a[0]), a[1..], b);
    }
  }

  // ----- the one change a request makes to the session table -----

  datatype Change =
    | Unchanged
    | Opened(id: SessionId, row: Session)
    | Rotation(spentId: SessionId, id: SessionId, raw: Token)
    | Revocation(ids: set<SessionId>)
    | Deletion(user: UserId)

  function Perform(settings: Settings, sessions: Sessions, change: Change, now: Time): Sessions
    requires change.Rotation? ==> change.spentId in sessions
  {
    match change
    case Unchanged => sessions
    case Opened(id, row) => sessions[id := row]
    case Rotation(spentId, id, raw) => Rotated(settings, sessions, spentId, id, raw, now)
    case Revocation(ids) => RevokedAmong(sessions, ids, now)
    case Deletion(user) => WithoutUser(sessions, user)
  }

  ghost function ChangeOf(settings: Settings, tables: Tables, step: Step): (c: Change)
    ensures c.Rotation? ==> c.spentId in tables.sessions
  {
    match step.request
    case Login(email, password, session, family, raw) =>
      (match LoginAttempt(settings, tables.users, email, password, step.now)
       case LoggedIn(u) => Opened(session, NewSession(settings, u, family, raw, step.now))
       case _ => Unchanged)
    case Refresh(token, session, raw) =>
      (match Present(tables.sessions, settings.hashToken(token), step.now)
       case Replayed(family) => Revocation(FamilyIds(tables.sessions, family))
       case Spendable(i) =>
         if Authenticated(tables.users, tables.sessions[i].userId) then Rotation(i, session, raw) else Unchanged
       case _ => Unchanged)
    case Logout(token) =>
      (match SessionWithHash(tables.sessions, settings.hashToken(token))
       case None => Unchanged
       case Some(i) => Revocation({i}))
    case RevokeOne(caller, target) =>
      if Authenticated(tables.users, caller) && target in tables.sessions && tables.sessions[target].userId == caller
      then Revocation({target}) else Unchanged
    case RevokeAll(user) => Revocation(UnrevokedOf(tables.sessions, user))
    case DeleteMe(caller) => if Authenticated(tables.users, caller) then Deletion(caller) else Unchanged
    case _ => Unchanged
  }

  /** A new row brings a new id, family and token hash; a rotation spends a live session. */
  ghost predicate ChangeFits(settings: Settings, s: State, change: Change, now: Time) {
    match change
    case Opened(id, row) =>
      && id !in s.used.sessions && row.familyId !in s.used.families && row.tokenHash !in s.used.hashes
      && row.userId in s.tables.users && row.issuedAt == now && row.revokedAt == None && row.replacedBy == None
    case Rotation(spentId, id, raw) =>
      && spentId in s.tables.sessions && Live(s.tables.sessions[spentId], now)
      && id !in s.used.sessions && settings.hashToken(raw) !in s.used.hashes
    case _ => true
  }

  /** The session table after a request is the old one with the request's one change. */
  lemma StepIsOneChange(settings: Settings, s: State, step: Step)
    requires Legal(settings, s, step)
    ensures ChangeFits(settings, s, ChangeOf(settings, s.tables, step), step.now)
    ensures Apply(settings, s.tables, step).sessions
         == Perform(settings, s.tables.sessions, ChangeOf(settings, s.tables, step), step.now)
  {
  }

  // ----- the one change a request makes to the user table -----

  datatype UserChange =
    | UsersUnchanged
    | Registered(id: UserId, row: User)
    | FailureCounted(id: UserId)
    | LoginRecorded(id: UserId)
    | StatusSet(id: UserId, status: Status)
    | Removed(id: UserId)

  ghost predicate UserChangeFits(s: State, change: UserChange) {
    match change
    case UsersUnchanged => true
    case Registered(id, row) =>
      && id !in s.used.users && row.failedLoginCount == 0 && row.lockedUntil == None
      && forall i :: i in s.tables.users ==> s.tables.users[i].email != row.email
    case FailureCounted(id) => id in s.tables.users
    case LoginRecorded(id) => id in s.tables.users
    case StatusSet(id, _) => id in s.tables.users
    case Removed(_) => true
  }

  function PerformOnUsers(settings: Settings, users: Users, change: UserChange, now: Time): Users
    requires change.FailureCounted? || change.LoginRecorded? || change.StatusSet? ==> change.id in users
  {
    match change
    case UsersUnchanged => users
    case Registered(id, row) => users[id := row]
    case FailureCounted(id) => users[id := WithFailure(settings, users[id], now)]
    case LoginRecorded(id) => users[id := WithSuccess(users[id], now)]
    case StatusSet(id, status) => users[id := users[id].(status := status)]
    case Removed(id) => users - {id}
  }

  ghost function UserChangeOf(settings: Settings, tables: Tables, step: Step): UserChange {
    match step.request
    case Register(email, passwordHash, newUser) =>
      if UserWithEmail(tables.users, email).Some? then UsersUnchanged
      else Registered(newUser, User(email, passwordHash, Active, 0, None, None))
    case Login(email, password, _, _, _) =>
      (match LoginAttempt(settings, tables.users, email, password, step.now)
       case CountedFailure(u) => FailureCounted(u)
       case LoggedIn(u) => LoginRecorded(u)
       case _ => UsersUnchanged)
    case DeleteMe(caller) => if Authenticated(tables.users, caller) then Removed(caller) else UsersUnchanged
    case SetStatus(user, status) => if user in tables.users then StatusSet(user, status) else UsersUnchanged
    case _ => UsersUnchanged
  }

  /** The user table after a request is the old one with the request's one change. */
  lemma StepIsOneUserChange(settings: Settings, s: State, step: Step)
    requires Legal(settings, s, step)
    ensures UserChangeFits(s, UserChangeOf(settings, s.tables, step))
    ensures Apply(settings, s.tables, step).users
         == PerformOnUsers(settings, s.tables.users, UserChangeOf(settings, s.tables, step), step.now)
  {
  }

  // ----- the invariant -----

  predicate ReplacedBy(s: Session, id: SessionId) {
    s.revokedAt.Some? && s.replacedBy == Some(id)
  }

  /** `chain` lists the sessions of a family in the order of their rotation: all of them, each
      once, all of one user, each revoked in favour of the next, and the last one not replaced. */
  ghost predicate FamilyChain(sessions: Sessions, family: FamilyId, chain: seq<SessionId>) {
    && chain != []
    && Distinct(chain)
    && (forall i :: i in chain <==> i in sessions && sessions[i].familyId == family)
    && (forall k :: 0 <= k < |chain| ==> chain[k] in sessions && sessions[chain[k]].userId == sessions[chain[0]].userId)
    && (forall j, k :: 0 <= j < k < |chain| && k == j + 1 ==> ReplacedBy(sessions[chain[j]], chain[k]))
    && sessions[chain[|chain| - 1]].replacedBy == None
  }

  ghost predicate HasChain(sessions: Sessions, family: FamilyId) {
    exists chain :: FamilyChain(sessions, family, chain)
  }

  ghost predicate Chained(sessions: Sessions) {
    forall i {:trigger HasChain(sessions, sessions[i].familyId)} ::
      i in sessions ==> HasChain(sessions, sessions[i].familyId)
  }

  ghost predicate Remembered(tables: Tables, used: Used) {
    && tables.users.Keys <= used.users
    && tables.sessions.Keys <= used.sessions
    && (forall i :: i in tables.sessions ==> tables.sessions[i].familyId in used.families)
    && (forall i :: i in tables.sessions ==> tables.sessions[i].tokenHash in used.hashes)
  }

  ghost predicate OwnersExist(tables: Tables) {
    forall i :: i in tables.sessions ==> tables.sessions[i].userId in tables.users
  }

  /** No row is stamped in the future. */
  ghost predicate StampedBy(sessions: Sessions, clock: Time) {
    forall i :: i in sessions ==>
      && sessions[i].issuedAt <= clock
      && (sessions[i].revokedAt.Some? ==> sessions[i].issuedAt <= sessions[i].revokedAt.value <= clock)
  }

  ghost predicate Inv(s: State) {
    && HashesUnique(s.tables.sessions)
    && EmailsUnique(s.tables.users)
    && Remembered(s.tables, s.used)
    && OwnersExist(s.tables)
    && StampedBy(s.tables.sessions, s.clock)
    && Chained(s.tables.sessions)
  }

  // ----- the changes keep the chains -----

  /** A chain stays one while its family keeps its rows, their owners and their links. */
  lemma ChainCarries(before: Sessions, after: Sessions, family: FamilyId, chain: seq<SessionId>)
    requires FamilyChain(before, family, chain)
    requires forall i :: (i in after && after[i].familyId == family) <==> (i in before && before[i].familyId == family)
    requires forall i :: i in before && before[i].familyId == family ==>
               && after[i].userId == before[i].userId
               && after[i].replacedBy == before[i].replacedBy
               && (before[i].revokedAt.Some? ==> after[i].revokedAt.Some?)
    ensures FamilyChain(after, family, chain)
  {
    assert forall k :: 0 <= k < |chain| ==> chain[k] in chain;
  }

  lemma RevocationKeepsChains(sessions: Sessions, ids: set<SessionId>, now: Time)
    requires Chained(sessions)
    ensures Chained(RevokedAmong(sessions, ids, now))
  {
    var after := RevokedAmong(sessions, ids, now);
    forall i | i in after
      ensures HasChain(after, after[i].familyId)
    {
      assert HasChain(sessions, sessions[i].familyId);
      var chain :| FamilyChain(sessions, sessions[i].familyId, chain);
      ChainCarries(sessions, after, sessions[i].familyId, chain);
    }
  }

  lemma OpeningKeepsChains(sessions: Sessions, id: SessionId, row: Session)
    requires Chained(sessions) && id !in sessions
    requires row.replacedBy == None
    requires forall i :: i in sessions ==> sessions[i].familyId != row.familyId
    ensures Chained(sessions[id := row])
  {
    var after := sessions[id := row];
    forall i | i in after
      ensures HasChain(after, after[i].familyId)
    {
      if i == id {
        assert FamilyChain(after, row.familyId, [id]);
      } else {
        assert HasChain(sessions, sessions[i].familyId);
        var chain :| FamilyChain(sessions, sessions[i].familyId, chain);
        ChainCarries(sessions, after, sessions[i].familyId, chain);
      }
    }
  }

  /** An unrevoked session is the last of its chain: every other one is revoked. */
  lemma UnrevokedIsTail(sessions: Sessions, chain: seq<SessionId>, i: SessionId)
    requires i in sessions && sessions[i].revokedAt == None
    requires FamilyChain(sessions, sessions[i].familyId, chain)
    ensures i == chain[|chain| - 1]
  {
    assert i in chain;
    var k :| 0 <= k < |chain| && chain[k] == i;
    assert k + 1 < |chain| ==> ReplacedBy(sessions[chain[k]], chain[k + 1]);
  }

  lemma RotationExtendsChain(
    settings: Settings, sessions: Sessions, spentId: SessionId, id: SessionId, raw: Token, now: Time,
    chain: seq<SessionId>)
    requires spentId in sessions && sessions[spentId].revokedAt == None && id !in sessions
    requires FamilyChain(sessions, sessions[spentId].familyId, chain)
    ensures FamilyChain(Rotated(settings, sessions, spentId, id, raw, now), sessions[spentId].familyId, chain + [id])
  {
    UnrevokedIsTail(sessions, chain, spentId);
    var after, longer := Rotated(settings, sessions, spentId, id, raw, now), chain + [id];
    assert forall k :: 0 <= k < |chain| ==> chain[k] in chain && longer[k] == chain[k];
    forall j, k | 0 <= j < k < |longer| && k == j + 1
      ensures ReplacedBy(after[longer[j]], longer[k])
    {
      if k < |chain| {
        assert ReplacedBy(sessions[chain[j]], chain[k]);
        assert chain[j] != spentId;
      }
    }
    assert forall i :: i in longer <==> i in chain || i == id;
  }

  lemma RotationKeepsChains(
    settings: Settings, sessions: Sessions, spentId: SessionId, id: SessionId, raw: Token, now: Time)
    requires Chained(sessions)
    requires spentId in sessions && sessions[spentId].revokedAt == None && id !in sessions
    ensures Chained(Rotated(settings, sessions, spentId, id, raw, now))
  {
    var after, family := Rotated(settings, sessions, spentId, id, raw, now), sessions[spentId].familyId;
    forall i | i in after
      ensures HasChain(after, after[i].familyId)
    {
      if after[i].familyId == family {
        assert HasChain(sessions, family);
        var chain :| FamilyChain(sessions, family, chain);
        RotationExtendsChain(settings, sessions, spentId, id, raw, now, chain);
      } else {
        assert HasChain(sessions, sessions[i].familyId);
        var chain :| FamilyChain(sessions, sessions[i].familyId, chain);
        ChainCarries(sessions, after, sessions[i].familyId, chain);
      }
    }
  }

  lemma DeletionKeepsChains(sessions: Sessions, user: UserId)
    requires Chained(sessions)
    ensures Chained(WithoutUser(sessions, user))
  {
    var after := WithoutUser(sessions, user);
    forall i | i in after
      ensures HasChain(after, after[i].familyId)
    {
      assert HasChain(sessions, sessions[i].familyId);
      var chain :| FamilyChain(sessions, sessions[i].familyId, chain);
      assert i in chain;
      assert forall k :: 0 <= k < |chain| ==> chain[k] in after;
      ChainCarries(sessions, after, sessions[i].familyId, chain);
    }
  }

  lemma ChangeKeepsChains(settings: Settings, s: State, change: Change, now: Time)
    requires Remembered(s.tables, s.used) && Chained(s.tables.sessions)
    requires ChangeFits(settings, s, change, now)
    ensures Chained(Perform(settings, s.tables.sessions, change, now))
  {
    match change
    case Unchanged =>
    case Opened(id, row) => OpeningKeepsChains(s.tables.sessions, id, row);
    case Rotation(spentId, id, raw) => RotationKeepsChains(settings, s.tables.sessions, spentId, id, raw, now);
    case Revocation(ids) => RevocationKeepsChains(s.tables.sessions, ids, now);
    case Deletion(user) => DeletionKeepsChains(s.tables.sessions, user);
  }

  // ----- the rest of the invariant -----

  /** The rows after a change: an old row of the same identity, or the one new row. */
  lemma ChangeKeepsRows(settings: Settings, s: State, change: Change, now: Time)
    requires HashesUnique(s.tables.sessions) && Remembered(s.tables, s.used) && StampedBy(s.tables.sessions, s.clock)
    requires ChangeFits(settings, s, change, now) && s.clock <= now
    ensures HashesUnique(Perform(settings, s.tables.sessions, change, now))
    ensures StampedBy(Perform(settings, s.tables.sessions, change, now), now)
  {
  }

  lemma StepKeepsMemory(settings: Settings, s: State, step: Step)
    requires Remembered(s.tables, s.used) && Legal(settings, s, step)
    ensures Remembered(Apply(settings, s.tables, step), UsedAfter(settings, s.used, step.request))
  {
  }

  lemma StepKeepsOwners(settings: Settings, s: State, step: Step)
    requires OwnersExist(s.tables) && Legal(settings, s, step)
    ensures OwnersExist(Apply(settings, s.tables, step))
  {
  }

  lemma UserChangeKeepsEmails(settings: Settings, s: State, change: UserChange, now: Time)
    requires EmailsUnique(s.tables.users) && UserChangeFits(s, change)
    ensures EmailsUnique(PerformOnUsers(settings, s.tables.users, change, now))
  {
  }

  lemma StepKeepsInv(settings: Settings, s: State, step: Step)
    requires Inv(s) && Legal(settings, s, step)
    ensures Inv(Next(settings, s, step))
  {
    var change, userChange := ChangeOf(settings, s.tables, step), UserChangeOf(settings, s.tables, step);
    StepIsOneChange(settings, s, step);
    ChangeKeepsChains(settings, s, change, step.now);
    ChangeKeepsRows(settings, s, change, step.now);
    StepKeepsMemory(settings, s, step);
    StepKeepsOwners(settings, s, step);
    StepIsOneUserChange(settings, s, step);
    UserChangeKeepsEmails(settings, s, userChange, step.now);
  }

  lemma {:induction false} RunKeepsInv(settings: Settings, s: State, steps: seq<Step>)
    requires Inv(s) && LegalRun(settings, s, steps)
    ensures Inv(Run(settings, s, steps))
    decreases |steps|
  {
    if steps != [] {
      StepKeepsInv(settings, s, steps[0]);
      RunKeepsInv(settings, Next(settings, s, steps[0]), steps[1..]);
    }
  }

  /** Every reachable state satisfies the invariant: among other things, in every reachable state
      the sessions of each family form one chain. */
  lemma ReachableInv(settings: Settings, s: State, steps: seq<Step>)
    requires Initial(s) && LegalRun(settings, s, steps)
    ensures Inv(Run(settings, s, steps))
  {
    RunKeepsInv(settings, s, steps);
  }

  // ----- what the chains mean -----

  /** A family has at most one unrevoked session, and it has no successor. */
  lemma OneUnrevokedPerFamily(s: State, i: SessionId, j: SessionId)
    requires Inv(s)
    requires i in s.tables.sessions && j in s.tables.sessions
    requires s.tables.sessions[i].familyId == s.tables.sessions[j].familyId
    requires s.tables.sessions[i].revokedAt == None && s.tables.sessions[j].revokedAt == None
    ensures i == j && s.tables.sessions[i].replacedBy == None
  {
    var sessions := s.tables.sessions;
    assert HasChain(sessions, sessions[i].familyId);
    var chain :| FamilyChain(sessions, sessions[i].familyId, chain);
    UnrevokedIsTail(sessions, chain, i);
    UnrevokedIsTail(sessions, chain, j);
  }

  /** No two sessions have the same successor, and a successor is another session of the
      same family and the same user. */
  lemma SuccessorsAreUnique(s: State, i: SessionId, j: SessionId, next: SessionId)
    requires Inv(s)
    requires i in s.tables.sessions && s.tables.sessions[i].replacedBy == Some(next)
    requires j in s.tables.sessions && s.tables.sessions[j].replacedBy == Some(next)
    ensures i == j && next != i && next in s.tables.sessions
    ensures s.tables.sessions[next].familyId == s.tables.sessions[i].familyId
    ensures s.tables.sessions[next].userId == s.tables.sessions[i].userId
  {
    SuccessorInChain(s.tables.sessions, i, next);
    SuccessorInChain(s.tables.sessions, j, next);
    var sessions := s.tables.sessions;
    assert HasChain(sessions, sessions[i].familyId);
    var chain :| FamilyChain(sessions, sessions[i].familyId, chain);
    var a := PlaceOf(sessions, sessions[i].familyId, chain, i, next);
    var b := PlaceOf(sessions, sessions[i].familyId, chain, j, next);
    assert a + 1 == b + 1;
  }

  /** A replaced session stands right before its successor. */
  lemma PlaceOf(sessions: Sessions, family: FamilyId, chain: seq<SessionId>, i: SessionId, next: SessionId)
    returns (a: nat)
    requires FamilyChain(sessions, family, chain)
    requires i in sessions && sessions[i].familyId == family && sessions[i].replacedBy == Some(next)
    ensures a + 1 < |chain| && chain[a] == i && chain[a + 1] == next
  {
    assert i in chain;
    a :| 0 <= a < |chain| && chain[a] == i;
    assert a + 1 < |chain| ==> ReplacedBy(sessions[chain[a]], chain[a + 1]);
  }

  lemma SuccessorInChain(sessions: Sessions, i: SessionId, next: SessionId)
    requires Chained(sessions)
    requires i in sessions && sessions[i].replacedBy == Some(next)
    ensures next in sessions && sessions[next].familyId == sessions[i].familyId
    ensures sessions[i].revokedAt.Some?
  {
    assert HasChain(sessions, sessions[i].familyId);
    var chain :| FamilyChain(sessions, sessions[i].familyId, chain);
    var a := PlaceOf(sessions, sessions[i].familyId, chain, i, next);
    assert chain[a + 1] in chain && ReplacedBy(sessions[chain[a]], chain[a + 1]);
  }

  lemma FamilyHasOneUser(sessions: Sessions, i: SessionId, j: SessionId)
    requires Chained(sessions)
    requires i in sessions && j in sessions && sessions[i].familyId == sessions[j].familyId
    ensures sessions[i].userId == sessions[j].userId
  {
    assert HasChain(sessions, sessions[i].familyId);
    var chain :| FamilyChain(sessions, sessions[i].familyId, chain);
    assert i in chain && j in chain;
  }
}
