/** app/db/models.py and app/db/session.py: the rows of users and sessions, and a database
    session with its committed and its working copy. */
module AuthTables {
  import opened Prelude

  type UserId = nat
  type SessionId = nat
  type FamilyId = nat
  type Token = string
  type TokenHash = string
  type Time = int

  datatype Status = Active | Disabled

  datatype User = User(
    email: string,
    passwordHash: string,
    status: Status,
    failedLoginCount: nat,
    lockedUntil: Option<Time>,
    lastLoginAt: Option<Time>)

  datatype Session = Session(
    userId: UserId,
    tokenHash: TokenHash,
    familyId: FamilyId,
    issuedAt: Time,
    expiresAt: Time,
    revokedAt: Option<Time>,
    replacedBy: Option<SessionId>)

  type Users = map<UserId, User>
  type Sessions = map<SessionId, Session>

  datatype Tables = Tables(users: Users, sessions: Sessions)

  /** app/core/config.py, and the foreign calls on tokens and passwords. Times are in one unit. */
  datatype Settings = Settings(
    maxFailedLogins: int,
    lockout: Time,
    tokenLifetime: Time,
    hashToken: Token -> TokenHash,
    verifyPassword: (string, string) -> bool)

  // ----- the unique columns -----

  ghost predicate HashesUnique(sessions: Sessions) {
    forall i, j :: i in sessions && j in sessions && sessions[i].tokenHash == sessions[j].tokenHash ==> i == j
  }

  ghost predicate EmailsUnique(users: Users) {
    forall i, j :: i in users && j in users && users[i].email == users[j].email ==> i == j
  }

  lemma SameEmailStaysUnique(users: Users, id: UserId, user: User)
    requires EmailsUnique(users) && id in users && user.email == users[id].email
    ensures EmailsUnique(users[id := user])
  {
  }

  ghost predicate HashUnused(sessions: Sessions, hash: TokenHash) {
    forall i :: i in sessions ==> sessions[i].tokenHash != hash
  }

  ghost function SessionWithHash(sessions: Sessions, hash: TokenHash): (r: Option<SessionId>)
    ensures r.Some? ==> r.value in sessions && sessions[r.value].tokenHash == hash
    ensures r.None? ==> HashUnused(sessions, hash)
  {
    if i :| i in sessions && sessions[i].tokenHash == hash then Some(i) else None
  }

  ghost function UserWithEmail(users: Users, email: string): (r: Option<UserId>)
    ensures r.Some? ==> r.value in users && users[r.value].email == email
    ensures r.None? ==> forall i :: i in users ==> users[i].email != email
  {
    if i :| i in users && users[i].email == email then Some(i) else None
  }

  // ----- the database session -----

  class Database {
    var committed: Tables
    /** What the queries of the request see: flushed changes included, committed or not. */
    var working: Tables

    constructor (tables: Tables)
      ensures committed == working == tables
    {
      committed, working := tables, tables;
    }

    ghost predicate Valid()
      reads this
    {
      && HashesUnique(working.sessions) && EmailsUnique(working.users)
      && HashesUnique(committed.sessions) && EmailsUnique(committed.users)
    }

    /** A request starts with nothing pending. */
    ghost predicate Idle()
      reads this
    {
      Valid() && working == committed
    }

    method Commit()
      modifies this`committed
      ensures committed == working
    {
      committed := working;
    }

    /** Closing abandons whatever was flushed and not committed. */
    method Close()
      modifies this`working
      ensures working == committed
    {
      working := committed;
    }

    method SelectSession(hash: TokenHash) returns (r: Option<SessionId>)
      requires Valid()
      ensures r == SessionWithHash(working.sessions, hash)
    {
      if i :| i in working.sessions && working.sessions[i].tokenHash == hash {
        r := Some(i);
      } else {
        r := None;
      }
    }

    method SelectUser(email: string) returns (r: Option<UserId>)
      requires Valid()
      ensures r == UserWithEmail(working.users, email)
    {
      if i :| i in working.users && working.users[i].email == email {
        r := Some(i);
      } else {
        r := None;
      }
    }
  }
}
