/** app/api/v1/auth.py, and the status route of app/api/v1/admin.py: what each request commits.
    Every method is proved against the function `Apply` on the committed tables. */
module AuthApi {
  import opened Prelude
  import opened AuthTables
  import opened RefreshTokens

  /** The inputs of a request. Generated ids and raw tokens are inputs as well, and so is the one
      reading of the clock, kept in Step. `caller` is the user an access token resolves to. */
  datatype Request =
    | Register(email: string, passwordHash: string, newUser: UserId)
    | Login(email: string, password: string, session: SessionId, family: FamilyId, raw: Token)
    | Refresh(token: Token, session: SessionId, raw: Token)
    | Logout(token: Token)
    | RevokeOne(caller: UserId, target: SessionId)
    | RevokeAll(user: UserId)
    | DeleteMe(caller: UserId)
    | SetStatus(user: UserId, status: Status)
    | Tick

  datatype Step = Step(now: Time, request: Request)

  datatype ApiError = Unauthorized | NotFound | Conflict

  // ----- what a login comes to -----

  predicate IsLocked(user: User, now: Time) {
    user.lockedUntil.Some? && user.lockedUntil.value > now
  }

  predicate PasswordAccepted(settings: Settings, user: User, password: string) {
    user.status == Active && settings.verifyPassword(user.passwordHash, password)
  }

  /** One more counted failure; from the limit on, each one locks the account anew. */
  function WithFailure(settings: Settings, user: User, now: Time): User {
    var counted := user.(failedLoginCount := user.failedLoginCount + 1);
    if counted.failedLoginCount >= settings.maxFailedLogins
    then counted.(lockedUntil := Some(now + settings.lockout))
    else counted
  }

  function WithSuccess(user: User, now: Time): User {
    user.(failedLoginCount := 0, lockedUntil := None, lastLoginAt := Some(now))
  }

  datatype LoginResult =
    | NoSuchUser
    | LockedOut
    | CountedFailure(user: UserId)
    | LoggedIn(user: UserId)

  ghost function LoginAttempt(settings: Settings, users: Users, email: string, password: string, now: Time)
    : (r: LoginResult)
    ensures r.CountedFailure? || r.LoggedIn? ==> r.user in users && users[r.user].email == email
  {
    match UserWithEmail(users, email)
    case None => NoSuchUser
    case Some(u) =>
      if IsLocked(users[u], now) then LockedOut
      else if PasswordAccepted(settings, users[u], password) then LoggedIn(u)
      else CountedFailure(u)
  }

  /** app/auth/dependencies.py: an access token only helps a user who exists and is active. */
  predicate Authenticated(users: Users, caller: UserId) {
    caller in users && users[caller].status == Active
  }

  // ----- what each request commits -----

  ghost function ApplyLogin(
    settings: Settings, tables: Tables, email: string, password: string,
    id: SessionId, family: FamilyId, raw: Token, now: Time): Tables
  {
    match LoginAttempt(settings, tables.users, email, password, now)
    case NoSuchUser => tables
    case LockedOut => tables
    case CountedFailure(u) =>
      tables.(users := tables.users[u := WithFailure(settings, tables.users[u], now)])
    case LoggedIn(u) =>
      Tables(tables.users[u := WithSuccess(tables.users[u], now)],
             tables.sessions[id := NewSession(settings, u, family, raw, now)])
  }

  ghost function ApplyRefresh(
    settings: Settings, tables: Tables, token: Token, id: SessionId, raw: Token, now: Time): Tables
  {
    match Present(tables.sessions, settings.hashToken(token), now)
    case Unknown => tables
    case Expired => tables
    case Replayed(family) =>
      tables.(sessions := RevokedAmong(tables.sessions, FamilyIds(tables.sessions, family), now))
    case Spendable(i) =>
      if Authenticated(tables.users, tables.sessions[i].userId)
      then tables.(sessions := Rotated(settings, tables.sessions, i, id, raw, now))
      else tables
  }

  ghost function Apply(settings: Settings, tables: Tables, step: Step): Tables {
    var now := step.now;
    match step.request
    case Register(email, passwordHash, newUser) =>
      if UserWithEmail(tables.users, email).Some? then tables
      else tables.(users := tables.users[newUser := User(email, passwordHash, Active, 0, None, None)])
    case Login(email, password, session, family, raw) =>
      ApplyLogin(settings, tables, email, password, session, family, raw, now)
    case Refresh(token, session, raw) =>
      ApplyRefresh(settings, tables, token, session, raw, now)
    case Logout(token) =>
      (match SessionWithHash(tables.sessions, settings.hashToken(token))
       case None => tables
       case Some(i) => tables.(sessions := RevokedAmong(tables.sessions, {i}, now)))
    case RevokeOne(caller, target) =>
      if Authenticated(tables.users, caller) && target in tables.sessions && tables.sessions[target].userId == caller
      then tables.(sessions := RevokedAmong(tables.sessions, {target}, now))
      else tables
    case RevokeAll(user) =>
      tables.(sessions := RevokedAmong(tables.sessions, UnrevokedOf(tables.sessions, user), now))
    case DeleteMe(caller) =>
      if Authenticated(tables.users, caller)
      then Tables(tables.users - {caller}, WithoutUser(tables.sessions, caller))
      else tables
    case SetStatus(user, status) =>
      if user in tables.users
      then tables.(users := tables.users[user := tables.users[user].(status := status)])
      else tables
    case Tick => tables
  }

  // ----- the routes -----

  method RegisterRoute(
    db: Database, settings: Settings, email: string, passwordHash: string, newUser: UserId, now: Time)
    returns (r: Result<UserId, ApiError>)
    requires db.Idle() && newUser !in db.committed.users
    modifies db
    ensures db.Idle()
    ensures db.committed == Apply(settings, old(db.committed), Step(now, Register(email, passwordHash, newUser)))
    ensures r == if UserWithEmail(old(db.committed.users), email).Some? then Err(Conflict) else Ok(newUser)
  {
    var existing := db.SelectUser(email);
    if existing.Some? {
      db.Close();
      return Err(Conflict);
    }
    db.working := db.working.(users := db.working.users[newUser := User(email, passwordHash, Active, 0, None, None)]);
    db.Commit();
    db.Close();
    return Ok(newUser);
  }

  method LoginRoute(
    db: Database, settings: Settings, email: string, password: string,
    session: SessionId, family: FamilyId, raw: Token, now: Time) returns (r: Result<SessionId, ApiError>)
    requires db.Idle()
    requires session !in db.committed.sessions && HashUnused(db.committed.sessions, settings.hashToken(raw))
    modifies db
    ensures db.Idle()
    ensures db.committed
         == Apply(settings, old(db.committed), Step(now, Login(email, password, session, family, raw)))
    ensures r == if LoginAttempt(settings, old(db.committed.users), email, password, now).LoggedIn?
                 then Ok(session) else Err(Unauthorized)
  {
    var found := db.SelectUser(email);
    if found.Some? {
      var locked := db.working.users[found.value];
      if locked.lockedUntil.Some? && locked.lockedUntil.value > now {
        db.Close();
        return Err(Unauthorized);
      }
    }
    var ok := false;
    if found.Some? && db.working.users[found.value].status == Active {
      ok := settings.verifyPassword(db.working.users[found.value].passwordHash, password);
    }
    if !ok {
      if found.Some? {
        var user := db.working.users[found.value];
        user := user.(failedLoginCount := user.failedLoginCount + 1);
        if user.failedLoginCount >= settings.maxFailedLogins {
          user := user.(lockedUntil := Some(now + settings.lockout));
        }
        SameEmailStaysUnique(db.working.users, found.value, user);
        db.working := db.working.(users := db.working.users[found.value := user]);
        db.Commit();
      }
      db.Close();
      return Err(Unauthorized);
    }
    var user := db.working.users[found.value];
    user := user.(failedLoginCount := 0);
    user := user.(lockedUntil := None);
    user := user.(lastLoginAt := Some(now));
    SameEmailStaysUnique(db.working.users, found.value, user);
    db.working := db.working.(users := db.working.users[found.value := user]);
    IssueInitial(db, settings, found.value, session, family, raw, now);
    db.Commit();
    db.Close();
    return Ok(session);
  }

  /** A replay is the one rejection that is committed; after any other one the flushed rotation,
      if there was one, is abandoned when the database session closes. */
  method RefreshRoute(
    db: Database, settings: Settings, token: Token, session: SessionId, raw: Token, now: Time)
    returns (r: Result<SessionId, ApiError>)
    requires db.Idle()
    requires session !in db.committed.sessions && HashUnused(db.committed.sessions, settings.hashToken(raw))
    modifies db
    ensures db.Idle()
    ensures db.committed == Apply(settings, old(db.committed), Step(now, Refresh(token, session, raw)))
    ensures r == if Rotates(settings, old(db.committed), token, now) then Ok(session) else Err(Unauthorized)
    ensures r.Err? && !Present(old(db.committed.sessions), settings.hashToken(token), now).Replayed?
            ==> db.committed == old(db.committed)
  {
    var issued := Rotate(db, settings, token, session, raw, now);
    if issued == Err(ReplayDetected) {
      db.Commit();
      db.Close();
      return Err(Unauthorized);
    }
    if issued == Err(InvalidRefreshToken) {
      db.Close();
      return Err(Unauthorized);
    }
    var owner := db.working.sessions[issued.value].userId;
    if owner !in db.working.users || db.working.users[owner].status != Active {
      db.Close();
      return Err(Unauthorized);
    }
    db.Commit();
    db.Close();
    return Ok(session);
  }

  method LogoutRoute(db: Database, settings: Settings, token: Token, now: Time)
    requires db.Idle()
    modifies db
    ensures db.Idle()
    ensures db.committed == Apply(settings, old(db.committed), Step(now, Logout(token)))
  {
    var found := db.SelectSession(settings.hashToken(token));
    if found.Some? {
      RevokeSession(db, found.value, now);
      db.Commit();
    }
    db.Close();
  }

  method RevokeOneRoute(db: Database, settings: Settings, caller: UserId, target: SessionId, now: Time)
    returns (r: Result<(), ApiError>)
    requires db.Idle()
    modifies db
    ensures db.Idle()
    ensures db.committed == Apply(settings, old(db.committed), Step(now, RevokeOne(caller, target)))
    ensures r == var before := old(db.committed);
                 if !Authenticated(before.users, caller) then Err(Unauthorized)
                 else if target !in before.sessions || before.sessions[target].userId != caller then Err(NotFound)
                 else Ok(())
    ensures r.Ok? ==> target in db.committed.sessions && db.committed.sessions[target].revokedAt.Some?
    ensures r.Err? ==> db.committed == old(db.committed)
  {
    if caller !in db.working.users || db.working.users[caller].status != Active {
      db.Close();
      return Err(Unauthorized);
    }
    if target !in db.working.sessions || db.working.sessions[target].userId != caller {
      db.Close();
      return Err(NotFound);
    }
    RevokeSession(db, target, now);
    db.Commit();
    db.Close();
    return Ok(());
  }

  /** Deleting the user cascades to the user's sessions. */
  method DeleteMeRoute(db: Database, settings: Settings, caller: UserId, now: Time) returns (r: Result<(), ApiError>)
    requires db.Idle()
    modifies db
    ensures db.Idle()
    ensures db.committed == Apply(settings, old(db.committed), Step(now, DeleteMe(caller)))
    ensures r == if Authenticated(old(db.committed.users), caller) then Ok(()) else Err(Unauthorized)
    ensures r.Err? ==> db.committed == old(db.committed)
    ensures r.Ok? ==> caller !in db.committed.users
    ensures r.Ok? ==> forall i :: i in db.committed.sessions ==> db.committed.sessions[i].userId != caller
  {
    if caller !in db.working.users || db.working.users[caller].status != Active {
      db.Close();
      return Err(Unauthorized);
    }
    var kept := map i | i in db.working.sessions && db.working.sessions[i].userId != caller :: db.working.sessions[i];
    db.working := Tables(db.working.users - {caller}, kept);
    db.Commit();
    db.Close();
    return Ok(());
  }

  method SetStatusRoute(db: Database, settings: Settings, target: UserId, status: Status, now: Time)
    returns (r: Result<(), ApiError>)
    requires db.Idle()
    modifies db
    ensures db.Idle()
    ensures db.committed == Apply(settings, old(db.committed), Step(now, SetStatus(target, status)))
    ensures r == if target in old(db.committed.users) then Ok(()) else Err(NotFound)
  {
    if target !in db.working.users {
      db.Close();
      return Err(NotFound);
    }
    db.working := db.working.(users := db.working.users[target := db.working.users[target].(status := status)]);
    db.Commit();
    db.Close();
    return Ok(());
  }

  /** A refresh that issues a successor. */
  ghost predicate Rotates(settings: Settings, tables: Tables, token: Token, now: Time) {
    var p := Present(tables.sessions, settings.hashToken(token), now);
    p.Spendable? && Authenticated(tables.users, tables.sessions[p.session].userId)
  }
}
