# Login lockout and registration checks of the SECURITY Svcs desktop app

This project models the authentication part of a Swing/SQLite inventory application:

- **Registration** (`src/View/Register.java`). The form trims its three fields. It then runs a fail-fast
  chain of checks: empty username, empty password, empty confirmation, the username pattern
  `[a-zA-Z0-9]{4,20}`, the password pattern with four lookaheads, and finally the mismatch check.
  When every check passes it calls `addUser(username, password, 2)`.
- **Login** (`src/View/Login.java`). The form trims both fields and looks the user up. When the password
  verifies and the account is not locked, it logs `SUCCESSFUL_LOGIN` and resets the failure counter.
  When the password does not verify (or the name is unknown) it raises the counter, logs `FAILED_LOGIN`,
  and locks the account once the new count is 3 or more. A verifying password on a locked account
  returns with nothing written.
- **The store** (`src/Controller/SQLite.java`). It holds the users table (keyed by its UNIQUE username)
  and the logs table. It offers `addUser`, `removeUser`, `addLogs` and `getUsers`. `hashPassword` writes
  the digest as lowercase hex. The four account operations the login form calls are declared there
  but not implemented.

Files:

- `text.dfy` (module `Text`): Java's `String.trim()`.
- `register.dfy` (module `Register`): both patterns, written the way `java.util.regex` runs them (a bounded
  repetition of a character class, and `(?=.*X)` lookaheads whose `.` stops at line terminators). Each
  pattern is proved equal to a rule stated directly on characters. Also the validation chain and the
  registering method.
- `sqlite.dfy` (module `SQLite`): the tables as a value (`Tables`) with one pure function per SQL
  statement, and the class `Database` whose methods update its fields. Each method that writes or looks
  up rows is proved against its function; `GetUsers` states its result directly. Also the hex encoder and its decoder.
- `login.dfy` (module `Login`): the login handler as a method, proved against the function `LoginStep`.
  Lemmas about single attempts, sequences of attempts, and the lockout invariant.
- `optional.dfy` (module `Optional`): `Option`, standing for a Java reference that may be null.

Collaborators the model cannot see are parameters:

- The SHA-256 digest of `String.getBytes()` is the `digest` function a `Database` is built with.
- `BCrypt.checkpw` is the `verify` argument of the login handler.
- The `Timestamp` string is an argument.

Behaviour of the code that the model keeps as written:

- The locked flag is checked only after the password verifies (`src/View/Login.java:108-113`). A wrong
  password on a locked account still raises the counter and logs a failure.
- A correct password on a locked account is not audited: no log row is written.
- Passwords are stored as the unsalted SHA-256 hex digest (`src/Controller/SQLite.java:152`), not with a
  salted adaptive hash.
- A taken username is not reported. `addUser` swallows the UNIQUE violation, the table keeps its old
  row, and the form still reports success.
- The users table has no failure-counter column (`src/Controller/SQLite.java:72-78`), and the counter
  operations are stubs that throw (`src/Controller/SQLite.java:305-319`). The model adds a `failures`
  field to each row. It gives the stubs the behaviour their caller relies on: increment returns the new
  count, reset sets it to 0, lock sets `locked` to 1, and lookup returns the row or nothing. On a
  username with no row, each acts like an SQL `UPDATE` that matches no row: nothing changes, and
  increment returns 0.

## Model

| member | source | states |
|---|---|---|
| Text.Trim | src/View/Register.java:102-104 | the trimmed field is no longer than the field and is empty exactly when every character of the field is at most U+0020 |
| Text.TrimSpec | src/View/Register.java:102-104 | the trimmed field is the slice left after removing every character at most U+0020 from both ends; it starts and ends with a non-blank and is empty exactly when the field is all blanks |
| Text.TrimIdempotent | src/View/Login.java:91-92 | trimming an already trimmed field changes nothing |
| Text.TrimIgnoresPadding | src/View/Register.java:102-104 | surrounding a string with blanks does not change its trim |
| Register.MatchRepeatIff | src/View/Register.java:121 | a full match of `cls{lo,hi}` (or `cls{lo,}`) holds exactly when the length is within the bounds and every character is in the class |
| Register.LookaheadFindsIff | src/View/Register.java:127 | the lookahead `(?=.*cls)` succeeds exactly when some position holds a character of the class and no line terminator comes before that position |
| Register.LookaheadFindsWithoutLineEnds | src/View/Register.java:127 | in a string with no line terminator the lookahead succeeds exactly when the string contains a character of the class |
| Register.UsernameMatches | src/View/Register.java:121 | the username pattern accepts exactly the names of 4 to 20 characters that are all ASCII letters or digits |
| Register.PasswordMatches | src/View/Register.java:127 | the password pattern accepts exactly the passwords of at least 8 characters, each a letter, a digit or one of `@$!%*?&`, containing a lowercase letter, an uppercase letter, a digit and one of `@$!%*?&` |
| Register.Validate | src/View/Register.java:101-136 | an all-blank username is the reported failure exactly when the username field is all blanks; no check fails exactly when the trimmed username satisfies the username rule, the trimmed password the password rule, and the trimmed confirmation equals the trimmed password |
| Register.FirstViolationWins | src/View/Register.java:107-136 | the chain reports a rule exactly when the trimmed inputs break it and no earlier rule, in the order empty username, empty password, empty confirmation, username format, password complexity, mismatch; it reports nothing exactly when no rule is broken |
| Register.BlankUsernameFirst | src/View/Register.java:107-110 | a username that is empty after trimming is reported first, whatever the other fields hold |
| Register.ShortUsernameRejected | src/View/Register.java:121-124 | "ab" is rejected by the username check |
| Register.UsernameWithSpaceRejected | src/View/Register.java:121-124 | "john doe" is rejected by the username check |
| Register.ShortPasswordRejected | src/View/Register.java:127-130 | "short1!" is rejected by the complexity check |
| Register.PasswordWithoutUppercaseRejected | src/View/Register.java:127-130 | "alllowercase1!" is rejected by the complexity check |
| Register.MismatchRejected | src/View/Register.java:133-136 | "Admin@1243" confirming a valid "Admin@1234" for "johndoe" is rejected by the mismatch check |
| Register.MismatchReported | src/View/Register.java:107-136 | under a valid username and a valid password, any confirmation that is non-blank after trimming and differs from the trimmed password is reported as a mismatch |
| Register.StrongPasswordAccepted | src/View/Register.java:107-136 | "johndoe" with "Admin@1234" confirmed passes every check |
| Register.PaddingIgnored | src/View/Register.java:102-104 | blanks around any of the three fields change no verdict |
| Register.AttemptRegistration | src/View/Register.java:101-147 | the result is the first failed check; if there is none, addUser is called once with the trimmed username, the hash of the trimmed password and role 2; otherwise the store is unchanged |
| Register.StoredHashIsNotThePassword | src/Controller/SQLite.java:151-157 | a password that passes the complexity check differs from every hex digest, so the stored hash is never the typed password |
| SQLite.Unsigned | src/Controller/SQLite.java:222 | `0xff & b` is the byte's value modulo 256, in 0..255 |
| SQLite.ToHexString | src/Controller/SQLite.java:222 | Integer.toHexString writes lowercase hex digits without a leading zero, whose value is the number |
| SQLite.ByteHex | src/Controller/SQLite.java:222-226 | each byte is written as exactly two lowercase hex digits whose value, high digit first, is the unsigned byte |
| SQLite.PaddedToHexString | src/Controller/SQLite.java:222-226 | Integer.toHexString of the byte, with a '0' put in front when it has one digit, is the byte's two-digit form |
| SQLite.HexOf | src/Controller/SQLite.java:220-228 | the hash string has exactly two characters per digest byte, each in 0-9a-f |
| SQLite.UnhexHexOf | src/Controller/SQLite.java:220-228 | reading the hash string back two digits at a time gives the digest bytes |
| SQLite.HexOfInjective | src/Controller/SQLite.java:220-228 | different digests give different hash strings |
| SQLite.Lookup | src/Controller/SQLite.java:305-307 | a user is found exactly when the username has a row, and then carries that row's id, hash, role and locked flag |
| SQLite.Inserted | src/Controller/SQLite.java:151-163 | a new username gets the row with the next id, the hash, the role, locked 0 and counter 0, and the next id moves on; a taken username leaves the tables as they were; no other row and neither the logs nor the log id change |
| SQLite.Deleted | src/Controller/SQLite.java:166-176 | the username loses its row; every other row, the logs and both ids are unchanged |
| SQLite.Logged | src/Controller/SQLite.java:121-133 | the logs gain one row at the end with the next log id, the event, username, description and timestamp; the earlier rows, the users and the user id are unchanged |
| SQLite.Incremented | src/Controller/SQLite.java:313-315 | for a known name the counter goes up by one and the new value is returned; an unknown name gives 0 and no change; no other row and nothing else changes |
| SQLite.Reset | src/Controller/SQLite.java:309-311 | the named row's counter becomes 0; no other row and nothing else changes |
| SQLite.Locked | src/Controller/SQLite.java:317-319 | the named row's locked flag becomes 1; no other row and nothing else changes |
| SQLite.InsertedRow | src/Controller/SQLite.java:151-163 | a new username gets a row with the next id, the given hash and role, locked 0 and a zero counter; an existing username leaves the tables unchanged; no other row changes |
| SQLite.DeletedRow | src/Controller/SQLite.java:166-176 | after the delete the username has no row and every other row is unchanged |
| SQLite.InsertThenDelete | src/Controller/SQLite.java:151-176 | deleting a row just inserted gives back the original users table |
| SQLite.CounterOperations | src/Controller/SQLite.java:309-319 | increment returns the old count plus one (0 for an unknown name) and leaves the flag alone; reset sets the count to 0; lock sets locked to 1; reset and lock are idempotent |
| SQLite.Database.constructor | src/Controller/SQLite.java:71-80 | fresh tables are empty and ids start at 1 |
| SQLite.Database.HashPassword | src/Controller/SQLite.java:217-229 | the loop builds the lowercase hex encoding of the digest |
| SQLite.Database.AddUser | src/Controller/SQLite.java:151-163 | the users table becomes the insertion of the hashed password with the given role; a taken username leaves it unchanged |
| SQLite.Database.RemoveUser | src/Controller/SQLite.java:166-176 | the users table loses the row of the username and nothing else |
| SQLite.Database.AddLogs | src/Controller/SQLite.java:121-133 | the logs table gains exactly one row at the end with the given event, username, description and timestamp |
| SQLite.Database.GetUsers | src/Controller/SQLite.java:197-214 | one entry per row, no username twice, each with the row's id, username, role and locked flag and an empty password |
| SQLite.Database.GetUserByUsername | src/Controller/SQLite.java:305-307 | returns the row of the username as a user, or nothing when there is none |
| SQLite.Database.IncrementFailedLoginAttempts | src/Controller/SQLite.java:313-315 | raises the counter by one and returns its new value |
| SQLite.Database.ResetFailedLoginAttempts | src/Controller/SQLite.java:309-311 | sets the counter to 0 |
| SQLite.Database.LockAccount | src/Controller/SQLite.java:317-319 | sets the locked flag to 1 |
| Login.Description | src/View/Login.java:152 | the description is "User logged in successfully" exactly for SUCCESSFUL_LOGIN, and "Failed login attempt" for every other event |
| Login.LogAuthenticationEvent | src/View/Login.java:150-153 | appends one log row with the event, the username, the event's description and the timestamp |
| Login.AttemptLogin | src/View/Login.java:90-138 | the handler's effect on the tables and its outcome are those of LoginStep |
| Login.LoginStep | src/View/Login.java:90-138 | the user is logged in exactly when both trimmed fields are filled, the name has a row, the password verifies against it and the row is not locked; a blank field or a locked account with a verifying password leaves the tables unchanged; every other attempt appends exactly one log row and keeps the earlier ones; no attempt adds or removes an account |
| Login.BlankFieldChangesNothing | src/View/Login.java:95-102 | a username or password that is empty after trimming returns with the tables unchanged |
| Login.SuccessfulLoginEffect | src/View/Login.java:108-122 | for an unlocked account and a verifying password: exactly one SUCCESSFUL_LOGIN row, the counter reset to 0, the flag and every other row unchanged, and the user handed to the main screen |
| Login.FailedLoginEffect | src/View/Login.java:123-136 | a non-verifying attempt appends exactly one FAILED_LOGIN row; a known account's counter goes up by one and the account is locked exactly when the new count is at least 3; an unknown name changes no row |
| Login.LockedAccountCorrectPassword | src/View/Login.java:108-113 | a verifying password on a locked account changes neither the counter, nor the flag, nor the log |
| Login.LoginFrame | src/View/Login.java:90-138 | an attempt adds or removes no row, changes no id, hash or role, touches no other account, never clears a lock, and appends at most one log row |
| Login.LockIsMonotone | src/View/Login.java:90-138 | a locked account stays locked after any attempt and is never logged in |
| Login.InvariantUnderStore | src/Controller/SQLite.java:151-176 | adding or removing a user keeps every locked account at or above the threshold |
| Login.InvariantUnderLogin | src/View/Login.java:108-136 | every attempt keeps every locked account at or above the threshold |
| Login.ConsecutiveFailures | src/View/Login.java:123-136 | n wrong passwords in a row raise the counter by n, log n rows, keep the hash, and lock the account exactly when the count reaches 3 |
| Login.ThreeFailuresLock | src/View/Login.java:131-133 | three wrong passwords starting from a zero counter lock the account |
| Login.SuccessInterruptsLockout | src/View/Login.java:116-133 | two failures, a success and two more failures leave an unlocked account unlocked with a count of 2 |

## Left out

- The Swing forms, their layout, navigation between screens and the dialogs and console messages. Outcomes stand for the messages.
- JDBC connections, `createNewDatabase`, creating and dropping tables, `logError` and `DEBUG_MODE`. Storage errors other than the UNIQUE violation of `addUser` are not modelled: every statement is taken to succeed.
- The history and product tables, `getLogs` and the `executeQueryFor*` helpers: they are plain CRUD, and product prices are floating point.
- SHA-256 and the platform charset of `getBytes()`: an uninterpreted `digest` function. `NoSuchAlgorithmException` is not modelled.
- BCrypt (`hashpw`, `gensalt`, `checkpw`): an uninterpreted `verify` function. Its salting is not modelled. jBCrypt's `checkpw` throws `IllegalArgumentException` on a stored hash that does not start with `$2`; every password the store writes is a SHA-256 hex string, so this would apply to every stored password, and that exception path is not modelled.
- Whether a user who registered through the form can log in: registration stores a SHA-256 hex string, while login checks the password with BCrypt. The outcome depends on what `verify` does with such a string, and the model leaves `verify` abstract.
- The seeding in `Main.init` (`src/Controller/Main.java:21-71`): start-up plumbing.
- Concurrency: the handlers run one at a time on the GUI event thread, and the code has no synchronization.
- SQLite.Database.GetUsers: it does not fix an order for the rows, because the query has no ORDER BY.
- Java strings are sequences of UTF-16 code units, while a Dafny `string` is a sequence of Unicode scalar values: `trim` counts code units, the regex counts code points, and a lone surrogate cannot be written in the model. No verdict depends on this, because every character the two patterns accept is ASCII and every character `trim` removes is at most U+0020.
