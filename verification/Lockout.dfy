/** The lockout counter and the rate at which passwords can be tried. */
module Lockout {
  import opened AuthTables
  import opened AuthApi
  import opened AuthMachine

  // ----- events of one user -----

  ghost predicate Fails(settings: Settings, s: State, step: Step, user: UserId) {
    UserChangeOf(settings, s.tables, step) == FailureCounted(user)
  }

  ghost predicate LogsIn(settings: Settings, s: State, step: Step, user: UserId) {
    UserChangeOf(settings, s.tables, step) == LoginRecorded(user)
  }

  ghost predicate Registers(settings: Settings, s: State, step: Step, user: UserId) {
    var change := UserChangeOf(settings, s.tables, step);
    change.Registered? && change.id == user
  }

  /** How many of the steps are counted failures of the user. */
  ghost function Failures(settings: Settings, s: State, steps: seq<Step>, user: UserId): nat
    decreases |steps|
  {
    if steps == [] then 0
    else
      (if Fails(settings, s, steps[0], user) then 1 else 0)
      + Failures(settings, Next(settings, s, steps[0]), steps[1..], user)
  }

  ghost predicate NoLogin(settings: Settings, s: State, steps: seq<Step>, user: UserId)
    decreases |steps|
  {
    steps == []
    || (!LogsIn(settings, s, steps[0], user) && NoLogin(settings, Next(settings, s, steps[0]), steps[1..], user))
  }

  // ----- the lock and the counter -----

  ghost predicate LockConsistent(settings: Settings, user: User, clock: Time) {
    && (user.lockedUntil.Some? <==> user.failedLoginCount >= settings.maxFailedLogins)
    && (user.lockedUntil.Some? ==> user.lockedUntil.value <= clock + settings.lockout)
  }

  ghost predicate LocksConsistent(settings: Settings, s: State) {
    forall u :: u in s.tables.users ==> LockConsistent(settings, s.tables.users[u], s.clock)
  }

  lemma {:induction false} RunKeepsLocks(settings: Settings, s: State, steps: seq<Step>)
    requires settings.maxFailedLogins >= 1
    requires LegalRun(settings, s, steps) && LocksConsistent(settings, s)
    ensures LocksConsistent(settings, Run(settings, s, steps))
    decreases |steps|
  {
    if steps != [] {
      StepIsOneUserChange(settings, s, steps[0]);
      RunKeepsLocks(settings, Next(settings, s, steps[0]), steps[1..]);
    }
  }

  /** An account carries a lock exactly when its counter has reached the limit, in every reachable
      state, if and only if the limit is at least one. */
  lemma LocksAreConsistentExactlyWhen(settings: Settings)
    ensures settings.maxFailedLogins >= 1
       <==> forall s: State, steps: seq<Step> | Initial(s) && LegalRun(settings, s, steps) ::
              LocksConsistent(settings, Run(settings, s, steps))
  {
    if settings.maxFailedLogins >= 1 {
      forall s: State, steps: seq<Step> | Initial(s) && LegalRun(settings, s, steps)
        ensures LocksConsistent(settings, Run(settings, s, steps))
      {
        RunKeepsLocks(settings, s, steps);
      }
    } else {
      var s := State(Tables(map[], map[]), 0, Used({}, {}, {}, {}));
      var step := Step(0, Register("a", "b", 0));
      assert Next(settings, s, step).tables.users[0].failedLoginCount == 0;
      RunOfOne(settings, s, step);
    }
  }

  /** The counted failures of a user since the last login or the registration, read off the run. */
  ghost function FailuresSinceLogin(settings: Settings, s: State, steps: seq<Step>, user: UserId): nat
    decreases |steps|
  {
    if steps == [] then 0
    else
      var earlier, last := steps[..|steps| - 1], steps[|steps| - 1];
      var before := Run(settings, s, earlier);
      if LogsIn(settings, before, last, user) || Registers(settings, before, last, user) then 0
      else FailuresSinceLogin(settings, s, earlier, user) + if Fails(settings, before, last, user) then 1 else 0
  }

  /** The counter in the table is that history, whatever else happened in between. */
  lemma {:induction false} CounterIsHistory(settings: Settings, s: State, steps: seq<Step>, user: UserId)
    requires Initial(s) && LegalRun(settings, s, steps)
    requires user in Run(settings, s, steps).tables.users
    ensures Run(settings, s, steps).tables.users[user].failedLoginCount == FailuresSinceLogin(settings, s, steps, user)
    decreases |steps|
  {
    if steps != [] {
      var earlier, last := steps[..|steps| - 1], steps[|steps| - 1];
      assert steps == earlier + [last];
      RunConcat(settings, s, earlier, [last]);
      var before := Run(settings, s, earlier);
      assert Run(settings, before, [last]) == Next(settings, before, last);
      StepIsOneUserChange(settings, before, last);
      if user in before.tables.users {
        CounterIsHistory(settings, s, earlier, user);
        RunKeepsInv(settings, s, earlier);
      }
    }
  }

  // ----- the rate -----

  function Count(s: State, user: UserId): nat {
    if user in s.tables.users then s.tables.users[user].failedLoginCount else 0
  }

  /** Failures that can still be counted before the first lock sets in, or one if it has already. */
  function Budget(settings: Settings, s: State, user: UserId): int {
    var left := settings.maxFailedLogins - Count(s, user);
    if left < 1 then 1 else left
  }

  /** The first time from `start` on at which a failure can be counted. */
  function Earliest(s: State, user: UserId, start: Time): Time {
    if user in s.tables.users && IsLocked(s.tables.users[user], start)
    then s.tables.users[user].lockedUntil.value
    else start
  }

  lemma {:induction false} UnknownUserNeverFails(settings: Settings, s: State, steps: seq<Step>, user: UserId)
    requires LegalRun(settings, s, steps)
    requires user in s.used.users && user !in s.tables.users
    ensures Failures(settings, s, steps, user) == 0
    decreases |steps|
  {
    if steps != [] {
      StepIsOneUserChange(settings, s, steps[0]);
      UnknownUserNeverFails(settings, Next(settings, s, steps[0]), steps[1..], user);
    }
  }

  /** What one step without a login does to the budget and to the earliest time. */
  lemma StepSpendsBudget(settings: Settings, s: State, step: Step, user: UserId, later: Time)
    requires settings.lockout > 0
    requires Remembered(s.tables, s.used) && Legal(settings, s, step) && !LogsIn(settings, s, step, user)
    requires step.now <= later
    ensures var t := Next(settings, s, step);
            if user in s.tables.users && user !in t.tables.users then user in t.used.users
            else if !Fails(settings, s, step, user) then
              Budget(settings, t, user) == Budget(settings, s, user)
              && Earliest(t, user, later) >= Earliest(s, user, step.now)
            else if Budget(settings, s, user) > 1 then
              Budget(settings, t, user) == Budget(settings, s, user) - 1
              && Earliest(t, user, later) >= Earliest(s, user, step.now) == step.now
            else
              Budget(settings, t, user) == 1
              && Earliest(t, user, later) >= Earliest(s, user, step.now) + settings.lockout
              && Earliest(s, user, step.now) == step.now
  {
    StepIsOneUserChange(settings, s, step);
  }

  /** The `k` failures, less the budget, each took one lockout period out of the time from
      `earliest` to `end`. */
  predicate PaidBy(lockout: int, k: int, budget: int, earliest: Time, end: Time) {
    earliest <= end && lockout * (k - budget) <= end - earliest
  }

  /** `k` failures, less the budget, each cost one lockout period after the earliest time. */
  lemma {:induction false} FailuresTakeTime(settings: Settings, s: State, steps: seq<Step>, user: UserId)
    requires settings.lockout > 0
    requires Remembered(s.tables, s.used) && LegalRun(settings, s, steps) && NoLogin(settings, s, steps, user)
    requires steps != [] && Failures(settings, s, steps, user) > 0
    ensures PaidBy(settings.lockout, Failures(settings, s, steps, user), Budget(settings, s, user),
                   Earliest(s, user, steps[0].now), steps[|steps| - 1].now)
    decreases |steps|
  {
    var t, rest := Next(settings, s, steps[0]), steps[1..];
    StepKeepsMemory(settings, s, steps[0]);
    if Failures(settings, t, rest, user) == 0 {
      OnlyFailureNow(settings, s, steps, user);
    } else {
      if user in s.tables.users && user !in t.tables.users {
        UnknownUserNeverFails(settings, t, rest, user);
      }
      FailuresTakeTime(settings, t, rest, user);
      OneStepMore(settings, s, steps, user);
    }
  }

  /** The last failure of a stretch is its first step: it is counted at once and within the budget. */
  lemma OnlyFailureNow(settings: Settings, s: State, steps: seq<Step>, user: UserId)
    requires settings.lockout > 0
    requires LegalRun(settings, s, steps) && steps != []
    requires Fails(settings, s, steps[0], user) && Failures(settings, s, steps, user) == 1
    ensures PaidBy(settings.lockout, Failures(settings, s, steps, user), Budget(settings, s, user),
                   Earliest(s, user, steps[0].now), steps[|steps| - 1].now)
  {
    FailsUnlocked(settings, s, steps[0], user);
    TimeMovesOn(settings, s, steps);
    LinearBudget(settings.lockout, 1, Budget(settings, s, user));
  }

  /** A failure is only counted on an account that is not locked at that time. */
  lemma FailsUnlocked(settings: Settings, s: State, step: Step, user: UserId)
    requires Fails(settings, s, step, user)
    ensures Earliest(s, user, step.now) == step.now
  {
  }

  /** What holds of the steps after the first one holds of all of them. */
  lemma OneStepMore(settings: Settings, s: State, steps: seq<Step>, user: UserId)
    requires settings.lockout > 0
    requires Remembered(s.tables, s.used) && LegalRun(settings, s, steps) && |steps| > 1
    requires !LogsIn(settings, s, steps[0], user)
    requires user in s.tables.users ==> user in Next(settings, s, steps[0]).tables.users
    requires var t, rest := Next(settings, s, steps[0]), steps[1..];
             PaidBy(settings.lockout, Failures(settings, t, rest, user), Budget(settings, t, user),
                    Earliest(t, user, rest[0].now), steps[|steps| - 1].now)
    ensures PaidBy(settings.lockout, Failures(settings, s, steps, user), Budget(settings, s, user),
                   Earliest(s, user, steps[0].now), steps[|steps| - 1].now)
  {
    var t, rest := Next(settings, s, steps[0]), steps[1..];
    StepSpendsBudget(settings, s, steps[0], user, rest[0].now);
    BudgetArithmetic(settings.lockout, Failures(settings, s, steps, user), Failures(settings, t, rest, user),
                     Budget(settings, s, user), Budget(settings, t, user),
                     Earliest(s, user, steps[0].now), Earliest(t, user, rest[0].now), steps[|steps| - 1].now);
  }

  lemma LinearBudget(lockout: int, k: int, budget: int)
    requires lockout > 0 && k <= budget
    ensures lockout * (k - budget) <= 0
  {
  }

  lemma BudgetArithmetic(
    lockout: int, k0: int, k1: int, budget0: int, budget1: int, earliest0: int, earliest1: int, end: int)
    requires lockout > 0
    requires PaidBy(lockout, k1, budget1, earliest1, end)
    requires || (k0 - budget0 == k1 - budget1 && earliest0 <= earliest1)
             || (k0 == k1 + 1 && budget0 == budget1 && earliest0 + lockout <= earliest1)
    ensures PaidBy(lockout, k0, budget0, earliest0, end)
  {
    if k0 == k1 + 1 && budget0 == budget1 {
      assert lockout * (k1 - budget1 + 1) == lockout * (k1 - budget1) + lockout;
    }
  }

  lemma {:induction false} TimeMovesOn(settings: Settings, s: State, steps: seq<Step>)
    requires LegalRun(settings, s, steps) && steps != []
    ensures s.clock <= steps[0].now <= steps[|steps| - 1].now
    decreases |steps|
  {
    if |steps| > 1 {
      TimeMovesOn(settings, Next(settings, s, steps[0]), steps[1..]);
    }
  }

  lemma AtMostQuotient(lockout: int, k: int, budget: int, time: int)
    requires lockout > 0 && time >= 0
    requires lockout * (k - budget) <= time
    ensures k <= budget + time / lockout
  {
    var q := time / lockout;
    assert time < lockout * (q + 1);
    if k - budget >= q + 1 {
      ProductGrows(lockout, q + 1, k - budget);
    }
  }

  lemma ProductGrows(lockout: int, a: int, b: int)
    requires lockout > 0 && a <= b
    ensures lockout * a <= lockout * b
  {
  }

  /** The full lockout periods between the first and the last of the steps. */
  function FullPeriods(settings: Settings, steps: seq<Step>): int
    requires settings.lockout > 0 && steps != []
  {
    (steps[|steps| - 1].now - steps[0].now) / settings.lockout
  }

  lemma AtMostFullPeriods(settings: Settings, steps: seq<Step>, k: int, budget: int)
    requires settings.lockout > 0 && steps != [] && steps[0].now <= steps[|steps| - 1].now
    requires settings.lockout * (k - budget) <= steps[|steps| - 1].now - steps[0].now
    ensures k <= budget + FullPeriods(settings, steps)
  {
    AtMostQuotient(settings.lockout, k, budget, steps[|steps| - 1].now - steps[0].now);
  }

  lemma FailuresAgainstTime(settings: Settings, s: State, steps: seq<Step>, user: UserId)
    requires settings.lockout > 0
    requires Remembered(s.tables, s.used) && LegalRun(settings, s, steps) && NoLogin(settings, s, steps, user)
    requires steps != []
    ensures settings.lockout * (Failures(settings, s, steps, user) - Budget(settings, s, user))
         <= steps[|steps| - 1].now - steps[0].now
  {
    if Failures(settings, s, steps, user) > 0 {
      FailuresTakeTime(settings, s, steps, user);
    } else {
      TimeMovesOn(settings, s, steps);
      LinearBudget(settings.lockout, 0, Budget(settings, s, user));
    }
  }

  /** In any stretch of a run without a login of the user, the counted failures are at most what
      was left of the limit (or one), plus one for every full lockout period that passed. */
  lemma FailureRate(settings: Settings, s: State, steps: seq<Step>, user: UserId)
    requires settings.lockout > 0
    requires Remembered(s.tables, s.used) && LegalRun(settings, s, steps) && NoLogin(settings, s, steps, user)
    requires steps != []
    ensures Failures(settings, s, steps, user) <= Budget(settings, s, user) + FullPeriods(settings, steps)
    ensures Budget(settings, s, user) <= if settings.maxFailedLogins < 1 then 1 else settings.maxFailedLogins
  {
    TimeMovesOn(settings, s, steps);
    FailuresAgainstTime(settings, s, steps, user);
    AtMostFullPeriods(settings, steps, Failures(settings, s, steps, user), Budget(settings, s, user));
  }

  /** From the failure that reaches the limit on, two counted failures without a login between
      them are at least one lockout period apart. */
  lemma LockedFailuresAreApart(
    settings: Settings, s: State, first: Step, between: seq<Step>, second: Step, user: UserId)
    requires settings.lockout > 0
    requires Inv(s) && LegalRun(settings, s, [first] + (between + [second]))
    requires Fails(settings, s, first, user)
    requires Count(s, user) + 1 >= settings.maxFailedLogins
    requires NoLogin(settings, Next(settings, s, first), between + [second], user)
    requires Fails(settings, Run(settings, Next(settings, s, first), between), second, user)
    ensures second.now >= first.now + settings.lockout
  {
    var t, steps := Next(settings, s, first), between + [second];
    assert ([first] + steps)[1..] == steps;
    StepKeepsInv(settings, s, first);
    StepIsOneUserChange(settings, s, first);
    LastFailureCounts(settings, t, between, second, user);
    FailuresTakeTime(settings, t, steps, user);
  }

  lemma {:induction false} LastFailureCounts(settings: Settings, s: State, steps: seq<Step>, last: Step, user: UserId)
    requires Fails(settings, Run(settings, s, steps), last, user)
    ensures Failures(settings, s, steps + [last], user) > 0
    decreases |steps|
  {
    if steps != [] {
      assert (steps + [last])[1..] == steps[1..] + [last];
      LastFailureCounts(settings, Next(settings, s, steps[0]), steps[1..], last, user);
    }
  }

  // ----- the end of a lock -----

  /** With the right password an active user gets in exactly when the stored end of the lock, if
      there is one, has come; that is within one lockout period of the last request of anybody. */
  lemma LockRunsOut(settings: Settings, s: State, user: UserId, password: string, now: Time)
    requires Inv(s)
    requires user in s.tables.users && PasswordAccepted(settings, s.tables.users[user], password)
    ensures LoginAttempt(settings, s.tables.users, s.tables.users[user].email, password, now) == LoggedIn(user)
       <==> (s.tables.users[user].lockedUntil.Some? ==> s.tables.users[user].lockedUntil.value <= now)
    ensures LocksConsistent(settings, s) && now >= s.clock + settings.lockout
        ==> LoginAttempt(settings, s.tables.users, s.tables.users[user].email, password, now) == LoggedIn(user)
  {
    var found := UserWithEmail(s.tables.users, s.tables.users[user].email);
    assert found.Some? && found.value == user;
    assert LocksConsistent(settings, s) ==> LockConsistent(settings, s.tables.users[user], s.clock);
  }

  /** None of the steps changes the user's row. */
  ghost predicate Untouched(settings: Settings, s: State, steps: seq<Step>, user: UserId)
    decreases |steps|
  {
    steps == []
    || (var change := UserChangeOf(settings, s.tables, steps[0]);
        && (change.UsersUnchanged? || change.id != user)
        && Untouched(settings, Next(settings, s, steps[0]), steps[1..], user))
  }

  lemma {:induction false} UntouchedRowStays(settings: Settings, s: State, steps: seq<Step>, user: UserId)
    requires LegalRun(settings, s, steps) && Untouched(settings, s, steps, user)
    requires user in s.tables.users
    ensures user in Run(settings, s, steps).tables.users
    ensures Run(settings, s, steps).tables.users[user] == s.tables.users[user]
    decreases |steps|
  {
    if steps != [] {
      StepIsOneUserChange(settings, s, steps[0]);
      UntouchedRowStays(settings, Next(settings, s, steps[0]), steps[1..], user);
    }
  }

  /** A failure that reaches the limit locks the account for exactly one lockout period: from then
      on, whatever others do, the right password is refused until the period is over and accepted
      afterwards. */
  lemma LockLastsOnePeriod(
    settings: Settings, s: State, first: Step, between: seq<Step>, user: UserId, password: string, now: Time)
    requires Inv(s) && LegalRun(settings, s, [first] + between)
    requires Fails(settings, s, first, user) && Count(s, user) + 1 >= settings.maxFailedLogins
    requires Untouched(settings, Next(settings, s, first), between, user)
    requires user in s.tables.users && PasswordAccepted(settings, s.tables.users[user], password)
    ensures LoginAttempt(settings, Run(settings, s, [first] + between).tables.users,
                         s.tables.users[user].email, password, now) == LoggedIn(user)
       <==> now >= first.now + settings.lockout
  {
    var t := Next(settings, s, first);
    assert ([first] + between)[1..] == between;
    StepIsOneUserChange(settings, s, first);
    StepKeepsInv(settings, s, first);
    UntouchedRowStays(settings, t, between, user);
    RunKeepsInv(settings, t, between);
    LockRunsOut(settings, Run(settings, t, between), user, password, now);
  }
}
