/** `authenticate_user` (backend/auth.py:210-255): a counter of failed password checks and a lock deadline, and the
    password reset that clears them (backend/routers/auth_users.py:379-410). Password and token verification are
    inputs; times are integer microseconds. */
module AccountLockout {
  import opened Wrappers

  const MAX_FAILED_ATTEMPTS: nat := 5
  const LOCKOUT: int := 15 * 60 * 1_000_000

  /** A user row; a NULL counter reads as zero. */
  datatype User = User(active: bool, failedAttempts: Option<nat>, lockedUntil: Option<int>)

  /** `Locked` is the HTTP 423; `Rejected` is the `None` result. */
  datatype Outcome = Accepted | Rejected | Locked

  /** One call: the clock when the lock is looked at, the clock when a new deadline would be computed, and
      whether the password is right. */
  datatype Attempt = Attempt(now: int, later: int, passwordOk: bool)

  function Failures(u: User): nat {
    if u.failedAttempts.None? then 0 else u.failedAttempts.value
  }

  predicate IsLocked(u: User, now: int) {
    u.lockedUntil.Some? && now < u.lockedUntil.value
  }

  function OutcomeOf(u: User, a: Attempt): Outcome {
    if IsLocked(u, a.now) then Locked else if a.passwordOk then Accepted else Rejected
  }

  function After(u: User, a: Attempt): User {
    if IsLocked(u, a.now) then u
    else if a.passwordOk then Cleared(u)
    else
      var failures := (if u.lockedUntil.Some? then 0 else Failures(u)) + 1;
      User(u.active, Some(failures), if failures >= MAX_FAILED_ATTEMPTS then Some(a.later + LOCKOUT) else None)
  }

  function Cleared(u: User): User {
    u.(failedAttempts := Some(0), lockedUntil := None)
  }

  class Accounts {
    var users: map<string, User>

    constructor (users: map<string, User>)
      ensures this.users == users
    {
      this.users := users;
    }

    method Authenticate(username: string, a: Attempt) returns (outcome: Outcome)
      modifies this
      ensures username in old(users) && old(users)[username].active ==>
        outcome == OutcomeOf(old(users)[username], a) && users == old(users)[username := After(old(users)[username], a)]
      ensures !(username in old(users) && old(users)[username].active) ==> outcome == Rejected && users == old(users)
      // A lock stops every password, right or wrong, up to its deadline, and changes nothing.
      ensures username in old(users) && old(users)[username].active && old(users)[username].lockedUntil.Some?
              && a.now < old(users)[username].lockedUntil.value ==>
                outcome == Locked && users == old(users)
      ensures username in old(users) && old(users)[username].active
              && (old(users)[username].lockedUntil.Some? ==> old(users)[username].lockedUntil.value <= a.now) ==>
                && outcome == (if a.passwordOk then Accepted else Rejected)
                && username in users && users == old(users)[username := users[username]]
      // A right password clears counter and deadline; a wrong one counts, and the fifth sets a deadline in 15 minutes.
      ensures outcome == Accepted ==> username in users && users[username] == User(true, Some(0), None)
      ensures outcome == Rejected && username in old(users) && old(users)[username].active ==>
                && username in users && users[username].active && users[username].failedAttempts.Some?
                && users[username].failedAttempts.value
                   == (if old(users)[username].lockedUntil.Some? || old(users)[username].failedAttempts.None? then 1
                       else old(users)[username].failedAttempts.value + 1)
                && users[username].lockedUntil
                   == (if users[username].failedAttempts.value >= 5 then Some(a.later + 15 * 60 * 1_000_000) else None)
    {
      if username !in users || !users[username].active {
        return Rejected;
      }
      var user := users[username];
      if user.lockedUntil.Some? {
        if a.now < user.lockedUntil.value {
          assert users == users[username := user];
          return Locked;
        }
        user := user.(lockedUntil := None, failedAttempts := Some(0));
        users := users[username := user];
      }
      if !a.passwordOk {
        user := user.(failedAttempts := Some(Failures(user) + 1));
        if Failures(user) >= MAX_FAILED_ATTEMPTS {
          user := user.(lockedUntil := Some(a.later + LOCKOUT));
        }
        users := users[username := user];
        return Rejected;
      }
      user := user.(failedAttempts := Some(0), lockedUntil := None);
      users := users[username := user];
      return Accepted;
    }

    /** `tokenOk`: the token is known, unused and not expired; false as result is the HTTP 400. */
    method ConfirmPasswordReset(username: string, tokenOk: bool) returns (reset: bool)
      modifies this
      ensures reset <==> tokenOk && username in old(users) && old(users)[username].active
      ensures users == if reset then old(users)[username := User(true, Some(0), None)] else old(users)
    {
      if !tokenOk || username !in users || !users[username].active {
        return false;
      }
      var user := users[username];
      user := user.(failedAttempts := Some(0), lockedUntil := None);
      users := users[username := user];
      return true;
    }
  }

  // ── Runs of one account ─────────────────────────────────────────────────

  /** A login, or a completed password reset. */
  datatype Step = Try(a: Attempt) | Reset

  /** The counter never exceeds five, and is five exactly when a deadline is set. */
  ghost predicate Counting(u: User) {
    Failures(u) <= 5 && (Failures(u) == 5 <==> u.lockedUntil.Some?)
  }

  function Next(u: User, s: Step): User {
    if s.Try? then After(u, s.a) else Cleared(u)
  }

  ghost function Run(u: User, steps: seq<Step>): User {
    if steps == [] then u else Next(Run(u, steps[..|steps| - 1]), steps[|steps| - 1])
  }

  lemma {:induction false} CounterBound(u: User, steps: seq<Step>)
    requires Counting(u)
    ensures Counting(Run(u, steps))
  {
    if steps != [] {
      CounterBound(u, steps[..|steps| - 1]);
    }
  }

  /** Time does not go back, within a login or between logins. */
  ghost predicate InTime(steps: seq<Step>) {
    && (forall i :: 0 <= i < |steps| && steps[i].Try? ==> steps[i].a.now <= steps[i].a.later)
    && (forall i, j :: 0 <= i < j < |steps| && steps[i].Try? && steps[j].Try? ==> steps[i].a.later <= steps[j].a.now)
  }

  ghost predicate Checks(u: User, s: Step, outcome: Outcome) {
    s.Try? && OutcomeOf(u, s.a) == outcome
  }

  /** How often the run clears the account: successful logins and resets. */
  ghost function Clears(u: User, steps: seq<Step>): nat {
    if steps == [] then 0
    else
      var before, s := steps[..|steps| - 1], steps[|steps| - 1];
      Clears(u, before) + (if s.Reset? || Checks(Run(u, before), s, Accepted) then 1 else 0)
  }

  /** The times at which the run's failed password checks are recorded. */
  ghost function FailureTimes(u: User, steps: seq<Step>): seq<int> {
    if steps == [] then []
    else
      var before, s := steps[..|steps| - 1], steps[|steps| - 1];
      FailureTimes(u, before) + (if Checks(Run(u, before), s, Rejected) then [s.a.later] else [])
  }

  lemma {:induction false} FailuresAreTries(u: User, steps: seq<Step>, t: int)
    requires t in FailureTimes(u, steps)
    ensures exists i :: 0 <= i < |steps| && steps[i].Try? && steps[i].a.later == t
  {
    var before, s := steps[..|steps| - 1], steps[|steps| - 1];
    if t in FailureTimes(u, before) {
      FailuresAreTries(u, before, t);
      var i :| 0 <= i < |before| && before[i].Try? && before[i].a.later == t;
      assert steps[i] == before[i];
    } else {
      assert s.Try? && s.a.later == t;
    }
  }

  ghost predicate SoFar(times: seq<int>, clock: int) {
    forall t :: t in times ==> t <= clock
  }

  lemma FailuresCameBefore(u: User, steps: seq<Step>)
    requires steps != [] && InTime(steps) && steps[|steps| - 1].Try?
    ensures SoFar(FailureTimes(u, steps[..|steps| - 1]), steps[|steps| - 1].a.now)
  {
    var times := FailureTimes(u, steps[..|steps| - 1]);
    forall t | t in times ensures t <= steps[|steps| - 1].a.now {
      FailuresAreTries(u, steps[..|steps| - 1], t);
    }
  }

  /** `k` full lockouts lie between the first failure and the last; each of them, and each clearing, lets at most five
      failures pass, and the counter holds the rest. */
  ghost predicate Paced(u: User, times: seq<int>, clears: nat, k: nat) {
    times != [] ==>
      && |times| <= Failures(u) + 5 * (k + clears)
      && times[|times| - 1] - times[0] >= k * LOCKOUT
      && (u.lockedUntil.Some? ==> u.lockedUntil.value - times[0] >= (k + 1) * LOCKOUT)
  }

  lemma {:induction false} LockoutsPaceFailures(u: User, steps: seq<Step>) returns (k: nat)
    requires Counting(u) && InTime(steps)
    ensures Paced(Run(u, steps), FailureTimes(u, steps), Clears(u, steps), k)
  {
    k := 0;
    if steps != [] {
      var before, s := steps[..|steps| - 1], steps[|steps| - 1];
      k := LockoutsPaceFailures(u, before);
      CounterBound(u, before);
      var row, times := Run(u, before), FailureTimes(u, before);
      if times == [] {
        k := 0;
      } else if Checks(row, s, Rejected) {
        FailuresCameBefore(u, steps);
        assert (times + [s.a.later])[0] == times[0] && times[|times| - 1] in times;
        if row.lockedUntil.Some? {
          k := k + 1;
        }
      }
    }
  }

  /** In every run, n failed password checks span at least floor((n-1)/5) lockouts, less one for each time that a
      successful login or a password reset clears the account. */
  lemma LockoutBound(u: User, steps: seq<Step>)
    requires Counting(u) && InTime(steps) && FailureTimes(u, steps) != []
    ensures var times := FailureTimes(u, steps);
            times[|times| - 1] - times[0] >= ((|times| - 1) / 5 - Clears(u, steps)) * (15 * 60 * 1_000_000)
  {
    var k := LockoutsPaceFailures(u, steps);
    CounterBound(u, steps);
    hide FailureTimes, Clears, Run;
    var times, clears := FailureTimes(u, steps), Clears(u, steps);
    ManyLockouts(k, (|times| - 1) / 5 - clears);
    assert times[|times| - 1] - times[0] >= ((|times| - 1) / 5 - clears) * LOCKOUT;
  }

  lemma ManyLockouts(k: int, n: int)
    requires n <= k
    ensures n * LOCKOUT <= k * LOCKOUT
  {}

  // ── What a lock stops ───────────────────────────────────────────────────

  /** Step `i` is the fifth failure, which sets the deadline. */
  ghost predicate Locks(u: User, steps: seq<Step>, i: nat) {
    && i < |steps| && steps[i].Try? && !steps[i].a.passwordOk
    && Run(u, steps[..i]).lockedUntil.None? && Failures(Run(u, steps[..i])) == 4
  }

  /** Nothing else sets a deadline. */
  lemma OnlyTheFifthFailureLocks(u: User, steps: seq<Step>, i: nat)
    requires Counting(u) && i < |steps|
    ensures Locks(u, steps, i)
            <==> && Run(u, steps[..i + 1]).lockedUntil.Some?
                 && Run(u, steps[..i + 1]) != Run(u, steps[..i])
  {
    CounterBound(u, steps[..i]);
    RunAt(u, steps, i);
  }

  /** The steps behind `i` and before `j` are logins, all within 15 minutes after step `i`. */
  ghost predicate OnlyTriesWithin(steps: seq<Step>, i: nat, j: nat)
    requires i < j <= |steps| && steps[i].Try?
  {
    forall k :: i < k < j ==> steps[k].Try? && steps[k].a.now < steps[i].a.later + 15 * 60 * 1_000_000
  }

  /** In every run, whatever the passwords, the row stays as the fifth failure left it until 15 minutes are over or a
      password reset comes. */
  lemma {:induction false} LockStays(u: User, steps: seq<Step>, i: nat, j: nat)
    requires Locks(u, steps, i) && i < j <= |steps| && OnlyTriesWithin(steps, i, j)
    ensures Run(u, steps[..j]).lockedUntil == Some(steps[i].a.later + 15 * 60 * 1_000_000)
    ensures Run(u, steps[..j]) == Run(u, steps[..i + 1])
  {
    RunAt(u, steps, j - 1);
    if j > i + 1 {
      LockStays(u, steps, i, j - 1);
    }
  }

  lemma RunAt(u: User, steps: seq<Step>, i: nat)
    requires i < |steps|
    ensures Run(u, steps[..i + 1]) == Next(Run(u, steps[..i]), steps[i])
  {
    assert steps[..i + 1][..i] == steps[..i];
  }

  /** So the first login behind the lock is turned away exactly within the 15 minutes; after them the password alone
      decides again. */
  lemma LockStopsExactly(u: User, steps: seq<Step>, i: nat, j: nat)
    requires Locks(u, steps, i) && i < j < |steps| && OnlyTriesWithin(steps, i, j) && steps[j].Try?
    ensures var row, a := Run(u, steps[..j]), steps[j].a;
            OutcomeOf(row, a) == if a.now < steps[i].a.later + 15 * 60 * 1_000_000 then Locked
                                 else if a.passwordOk then Accepted else Rejected
  {
    LockStays(u, steps, i, j);
  }

  /** No login succeeds within 15 minutes of the fifth failure unless a reset came between. */
  lemma NoLoginWhileLocked(u: User, steps: seq<Step>, i: nat, j: nat)
    requires Locks(u, steps, i) && i < j < |steps| && InTime(steps) && steps[j].Try?
    requires steps[j].a.now < steps[i].a.later + 15 * 60 * 1_000_000
    requires forall k :: i < k < j ==> !steps[k].Reset?
    ensures OutcomeOf(Run(u, steps[..j]), steps[j].a) == Locked
  {
    forall k | i < k < j ensures steps[k].Try? && steps[k].a.now < steps[i].a.later + 15 * 60 * 1_000_000 {
      assert steps[k].Try? && steps[k].a.now <= steps[k].a.later <= steps[j].a.now;
    }
    LockStopsExactly(u, steps, i, j);
  }

  /** And five wrong passwords in a row do lock an account that was clear. */
  lemma {:induction false} WrongPasswordsCount(u: User, steps: seq<Step>)
    requires Failures(u) == 0 && u.lockedUntil.None? && |steps| <= 5
    requires forall k :: 0 <= k < |steps| ==> steps[k].Try? && !steps[k].a.passwordOk
    ensures Failures(Run(u, steps)) == |steps|
    ensures Run(u, steps).lockedUntil == if |steps| == 5 then Some(steps[4].a.later + 15 * 60 * 1_000_000) else None
  {
    if steps != [] {
      WrongPasswordsCount(u, steps[..|steps| - 1]);
    }
  }
}
