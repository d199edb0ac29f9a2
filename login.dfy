/**
 * The login form (src/View/Login.java): trims the two fields, looks the user up,
 * and either records a successful login and resets the failure counter, or
 * raises the counter, records a failed login and locks the account on the third
 * failure. BCrypt.checkpw is the `verify` parameter; the timestamp is an input.
 */
module Login {

  import opened Optional
  import opened Text
  import opened SQLite

  const SuccessfulLogin: string := "SUCCESSFUL_LOGIN"
  const FailedLogin: string := "FAILED_LOGIN"

  /** Failed attempts, counted after the increment, at which the account is locked. */
  const LockThreshold: int := 3

  /** What the handler ends with: the message it prints, or the main screen for `user`. */
  datatype Outcome =
    | UsernameEmpty
    | PasswordEmpty
    | AccountIsLocked
    | LoggedIn(user: User)
    | InvalidAttempt(attempt: int)
    | LockedOut

  /**
   * The `desc` column logAuthenticationEvent writes for an event: a successful
   * login is described as such, every other event as a failed attempt.
   */
  function Description(event: string): (desc: string)
    ensures desc == "User logged in successfully" <==> event == SuccessfulLogin
    ensures desc == "User logged in successfully" || desc == "Failed login attempt"
  {
    if event == SuccessfulLogin then "User logged in successfully" else "Failed login attempt"
  }

  /**
   * One press of the login button, as a function of the tables before it. The
   * user gets in exactly when both trimmed fields are filled, the name has a row,
   * the password verifies against it and the row is not locked. Only an attempt
   * that reaches the password check writes a log row, exactly one; no attempt
   * adds or removes an account.
   */
  function LoginStep(t: Tables, usernameField: string, passwordField: string,
                     verify: (string, string) -> bool, timestamp: string): (r: (Tables, Outcome))
    ensures var username, password := Trim(usernameField), Trim(passwordField);
      r.1.LoggedIn? <==>
        && username != [] && password != []
        && username in t.users
        && verify(password, t.users[username].password)
        && t.users[username].locked != 1
    ensures r.1.LoggedIn? ==> Lookup(t, Trim(usernameField)) == Some(r.1.user)
    ensures r.1.UsernameEmpty? || r.1.PasswordEmpty? || r.1.AccountIsLocked? ==> r.0 == t
    ensures r.1.LoggedIn? || r.1.InvalidAttempt? || r.1.LockedOut? ==>
      |r.0.logs| == |t.logs| + 1 && r.0.logs[..|t.logs|] == t.logs
    ensures r.0.users.Keys == t.users.Keys && r.0.nextUserId == t.nextUserId
  {
    var username, password := Trim(usernameField), Trim(passwordField);
    if username == [] then (t, UsernameEmpty)
    else if password == [] then (t, PasswordEmpty)
    else
      var user := Lookup(t, username);
      if user.Some? && verify(password, user.value.password) then
        if user.value.locked == 1 then (t, AccountIsLocked)
        else
          var logged := Logged(t, SuccessfulLogin, username, Description(SuccessfulLogin), timestamp);
          (Reset(logged, username), LoggedIn(user.value))
      else
        var (counted, failedAttempts) := Incremented(t, username);
        var logged := Logged(counted, FailedLogin, username, Description(FailedLogin), timestamp);
        if failedAttempts >= LockThreshold then (Locked(logged, username), LockedOut)
        else (logged, InvalidAttempt(failedAttempts))
  }

  /** logAuthenticationEvent: one row in the logs table, its description chosen by the event. */
  method LogAuthenticationEvent(db: Database, username: string, event: string, timestamp: string)
    modifies db
    ensures db.Snapshot() == Logged(old(db.Snapshot()), event, username, Description(event), timestamp)
  {
    db.AddLogs(event, username, Description(event), timestamp);
  }

  /** loginBtnActionPerformed */
  method AttemptLogin(db: Database, usernameField: string, passwordField: string,
                      verify: (string, string) -> bool, timestamp: string) returns (outcome: Outcome)
    modifies db
    ensures (db.Snapshot(), outcome) == LoginStep(old(db.Snapshot()), usernameField, passwordField, verify, timestamp)
  {
    var username := Trim(usernameField);
    var password := Trim(passwordField);
    if username == [] {
      return UsernameEmpty;
    }
    if password == [] {
      return PasswordEmpty;
    }
    var user := db.GetUserByUsername(username);
    if user.Some? && verify(password, user.value.password) {
      if user.value.locked == 1 {
        return AccountIsLocked;
      }
      LogAuthenticationEvent(db, username, SuccessfulLogin, timestamp);
      db.ResetFailedLoginAttempts(username);
      outcome := LoggedIn(user.value);
    } else {
      var failedAttempts := db.IncrementFailedLoginAttempts(username);
      LogAuthenticationEvent(db, username, FailedLogin, timestamp);
      if failedAttempts >= LockThreshold {
        db.LockAccount(username);
        outcome := LockedOut;
      } else {
        outcome := InvalidAttempt(failedAttempts);
      }
    }
  }

  // ---------------------------------------------------------------------------
  // Properties of one attempt
  // ---------------------------------------------------------------------------

  /** A blank username or password returns before the store is touched: no lookup, counter or log change. */
  lemma BlankFieldChangesNothing(t: Tables, usernameField: string, passwordField: string,
                                 verify: (string, string) -> bool, timestamp: string)
    requires Trim(usernameField) == [] || Trim(passwordField) == []
    ensures var (t', outcome) := LoginStep(t, usernameField, passwordField, verify, timestamp);
      && t' == t
      && outcome == (if Trim(usernameField) == [] then UsernameEmpty else PasswordEmpty)
  {
  }

  /**
   * A verifying password for an unlocked account: exactly one SUCCESSFUL_LOGIN
   * row, the counter back at 0, the lock flag and every other row unchanged.
   */
  lemma SuccessfulLoginEffect(t: Tables, usernameField: string, passwordField: string,
                              verify: (string, string) -> bool, timestamp: string)
    requires Trim(usernameField) != [] && Trim(passwordField) != []
    requires Trim(usernameField) in t.users && t.users[Trim(usernameField)].locked != 1
    requires verify(Trim(passwordField), t.users[Trim(usernameField)].password)
    ensures var username := Trim(usernameField);
      var (t', outcome) := LoginStep(t, usernameField, passwordField, verify, timestamp);
      && outcome == LoggedIn(Lookup(t, username).value)
      && t'.logs == t.logs + [LogRow(t.nextLogId, SuccessfulLogin, username, "User logged in successfully", timestamp)]
      && t'.users == t.users[username := t.users[username].(failures := 0)]
  {
  }

  /**
   * An attempt that does not verify (unknown user or wrong password): exactly one
   * FAILED_LOGIN row; a known account's counter goes up by one and the account is
   * locked exactly when the new count is at least 3; an unknown name changes no row.
   */
  lemma FailedLoginEffect(t: Tables, usernameField: string, passwordField: string,
                          verify: (string, string) -> bool, timestamp: string)
    requires Trim(usernameField) != [] && Trim(passwordField) != []
    requires Trim(usernameField) in t.users ==> !verify(Trim(passwordField), t.users[Trim(usernameField)].password)
    ensures var username := Trim(usernameField);
      var (t', outcome) := LoginStep(t, usernameField, passwordField, verify, timestamp);
      && t'.logs == t.logs + [LogRow(t.nextLogId, FailedLogin, username, "Failed login attempt", timestamp)]
      && (username in t.users ==>
            var row := t.users[username];
            var count := row.failures + 1;
            && t'.users == t.users[username := row.(failures := count,
                                                    locked := if count >= LockThreshold then 1 else row.locked)]
            && outcome == (if count >= LockThreshold then LockedOut else InvalidAttempt(count)))
      && (username !in t.users ==> t'.users == t.users && outcome == InvalidAttempt(0))
  {
  }

  /** A verifying password for a locked account returns with no log row and no counter or flag change. */
  lemma LockedAccountCorrectPassword(t: Tables, usernameField: string, passwordField: string,
                                     verify: (string, string) -> bool, timestamp: string)
    requires Trim(usernameField) != [] && Trim(passwordField) != []
    requires Trim(usernameField) in t.users && t.users[Trim(usernameField)].locked == 1
    requires verify(Trim(passwordField), t.users[Trim(usernameField)].password)
    ensures LoginStep(t, usernameField, passwordField, verify, timestamp) == (t, AccountIsLocked)
  {
  }

  /**
   * What no login attempt does: it adds or removes no row, changes no id, password
   * or role, touches no other account, never clears a lock, and only appends to
   * the log, at most one row.
   */
  lemma LoginFrame(t: Tables, usernameField: string, passwordField: string,
                   verify: (string, string) -> bool, timestamp: string)
    ensures var (t', _) := LoginStep(t, usernameField, passwordField, verify, timestamp);
      && t'.users.Keys == t.users.Keys
      && (forall v :: v in t.users ==>
            && t'.users[v].id == t.users[v].id
            && t'.users[v].password == t.users[v].password
            && t'.users[v].role == t.users[v].role
            && (t'.users[v].locked == t.users[v].locked || t'.users[v].locked == 1)
            && (v != Trim(usernameField) ==> t'.users[v] == t.users[v]))
      && t'.nextUserId == t.nextUserId
      && |t.logs| <= |t'.logs| <= |t.logs| + 1
      && t'.logs[..|t.logs|] == t.logs
  {
  }

  /** Once locked, an account stays locked whatever is typed into the form. */
  lemma LockIsMonotone(t: Tables, usernameField: string, passwordField: string,
                       verify: (string, string) -> bool, timestamp: string, v: string)
    requires v in t.users && t.users[v].locked == 1
    ensures var (t', outcome) := LoginStep(t, usernameField, passwordField, verify, timestamp);
      v in t'.users && t'.users[v].locked == 1 && (v == Trim(usernameField) ==> !outcome.LoggedIn?)
  {
    LoginFrame(t, usernameField, passwordField, verify, timestamp);
  }

  // ---------------------------------------------------------------------------
  // The lockout invariant
  // ---------------------------------------------------------------------------

  /** Every locked account has reached the threshold. */
  predicate LockedOnlyAtThreshold(t: Tables) {
    forall v :: v in t.users && t.users[v].locked == 1 ==> t.users[v].failures >= LockThreshold
  }

  /** Registration and deletion keep the invariant: a new row is unlocked. */
  lemma InvariantUnderStore(t: Tables, username: string, hash: string, role: int)
    requires LockedOnlyAtThreshold(t)
    ensures LockedOnlyAtThreshold(Inserted(t, username, hash, role))
    ensures LockedOnlyAtThreshold(Deleted(t, username))
  {
  }

  /**
   * Every login attempt keeps the invariant: a success resets the counter only
   * of an unlocked account, and a failure locks only at the threshold.
   */
  lemma InvariantUnderLogin(t: Tables, usernameField: string, passwordField: string,
                            verify: (string, string) -> bool, timestamp: string)
    requires LockedOnlyAtThreshold(t)
    ensures LockedOnlyAtThreshold(LoginStep(t, usernameField, passwordField, verify, timestamp).0)
  {
  }

  // ---------------------------------------------------------------------------
  // Sequences of attempts
  // ---------------------------------------------------------------------------

  datatype Attempt = Attempt(usernameField: string, passwordField: string, timestamp: string)

  /** The tables after the login button is pressed once for each attempt, in order. */
  function Run(t: Tables, attempts: seq<Attempt>, verify: (string, string) -> bool): Tables
    decreases |attempts|
  {
    if attempts == [] then t
    else
      var a := attempts[0];
      Run(LoginStep(t, a.usernameField, a.passwordField, verify, a.timestamp).0, attempts[1..], verify)
  }

  lemma {:induction false} RunAppend(t: Tables, first: seq<Attempt>, next: seq<Attempt>, verify: (string, string) -> bool)
    ensures Run(t, first + next, verify) == Run(Run(t, first, verify), next, verify)
    decreases |first|
  {
    if first == [] {
      assert first + next == next;
    } else {
      var a := first[0];
      assert (first + next)[0] == a && (first + next)[1..] == first[1..] + next;
      RunAppend(LoginStep(t, a.usernameField, a.passwordField, verify, a.timestamp).0, first[1..], next, verify);
    }
  }

  /** An attempt by `username` with a password other than the one stored for it. */
  predicate WrongPassword(a: Attempt, username: string, hash: string, verify: (string, string) -> bool) {
    && username != []
    && Trim(a.usernameField) == username
    && Trim(a.passwordField) != []
    && !verify(Trim(a.passwordField), hash)
  }

  /**
   * Consecutive failures: each one raises the counter by one and logs one row, and
   * the account ends locked when the count reached 3, its flag untouched otherwise.
   */
  lemma {:induction false} ConsecutiveFailures(t: Tables, username: string, attempts: seq<Attempt>,
                                               verify: (string, string) -> bool)
    requires username in t.users
    requires forall i :: 0 <= i < |attempts| ==> WrongPassword(attempts[i], username, t.users[username].password, verify)
    ensures var t' := Run(t, attempts, verify);
      && username in t'.users
      && t'.users[username].password == t.users[username].password
      && t'.users[username].failures == t.users[username].failures + |attempts|
      && t'.users[username].locked ==
           (if attempts != [] && t.users[username].failures + |attempts| >= LockThreshold then 1
            else t.users[username].locked)
      && |t'.logs| == |t.logs| + |attempts|
    decreases |attempts|
  {
    if attempts != [] {
      var a := attempts[0];
      FailedLoginEffect(t, a.usernameField, a.passwordField, verify, a.timestamp);
      var t1 := LoginStep(t, a.usernameField, a.passwordField, verify, a.timestamp).0;
      ConsecutiveFailures(t1, username, attempts[1..], verify);
    }
  }

  /** Three wrong passwords in a row lock an account whose counter was at 0. */
  lemma ThreeFailuresLock(t: Tables, username: string, attempts: seq<Attempt>, verify: (string, string) -> bool)
    requires username in t.users && t.users[username].failures == 0
    requires |attempts| == 3
    requires forall i :: 0 <= i < 3 ==> WrongPassword(attempts[i], username, t.users[username].password, verify)
    ensures var t' := Run(t, attempts, verify);
      username in t'.users && t'.users[username].locked == 1
  {
    ConsecutiveFailures(t, username, attempts, verify);
  }

  /**
   * Two failures, a success, then two more failures leave an unlocked account
   * unlocked with a count of 2: the success reset the counter in between.
   */
  lemma SuccessInterruptsLockout(t: Tables, username: string, before: seq<Attempt>, success: Attempt,
                                 after: seq<Attempt>, verify: (string, string) -> bool)
    requires username in t.users && t.users[username].failures == 0 && t.users[username].locked == 0
    requires |before| == 2 && |after| == 2
    requires forall i :: 0 <= i < 2 ==> WrongPassword(before[i], username, t.users[username].password, verify)
    requires forall i :: 0 <= i < 2 ==> WrongPassword(after[i], username, t.users[username].password, verify)
    requires Trim(success.usernameField) == username && Trim(success.passwordField) != []
    requires verify(Trim(success.passwordField), t.users[username].password)
    ensures var t' := Run(t, before + [success] + after, verify);
      username in t'.users && t'.users[username].locked == 0 && t'.users[username].failures == 2
  {
    var hash := t.users[username].password;
    var t1 := Run(t, before, verify);
    ConsecutiveFailures(t, username, before, verify);
    assert t1.users[username].password == hash && t1.users[username].locked == 0;
    var t2 := SuccessStep(t1, username, success, verify);
    assert t2.users[username].password == hash && t2.users[username].failures == 0;
    assert forall i :: 0 <= i < |after| ==> WrongPassword(after[i], username, t2.users[username].password, verify);
    var t3 := Run(t2, after, verify);
    ConsecutiveFailures(t2, username, after, verify);
    assert t3.users[username].failures == 2 && t3.users[username].locked == 0;
    RunAppend(t, before, [success], verify);
    assert Run(t, before + [success], verify) == t2;
    RunAppend(t, before + [success], after, verify);
    assert Run(t, before + [success] + after, verify) == t3;
  }

  /** One successful attempt, as a step of Run. */
  lemma SuccessStep(t: Tables, username: string, success: Attempt, verify: (string, string) -> bool)
    returns (t': Tables)
    requires username in t.users && t.users[username].locked != 1
    requires Trim(success.usernameField) == username && username != [] && Trim(success.passwordField) != []
    requires verify(Trim(success.passwordField), t.users[username].password)
    ensures t' == Run(t, [success], verify)
    ensures t'.users == t.users[username := t.users[username].(failures := 0)]
  {
    SuccessfulLoginEffect(t, success.usernameField, success.passwordField, verify, success.timestamp);
    t' := LoginStep(t, success.usernameField, success.passwordField, verify, success.timestamp).0;
    assert Run(t', [], verify) == t';
  }
}
