/**
 * The registration form (src/View/Register.java): a fail-fast chain of checks on
 * the trimmed username, password and confirmation, followed by a single call to
 * the store's addUser with the client role when every check passes.
 */
module Register {

  import opened Optional
  import opened Text
  import SQLite

  // ---------------------------------------------------------------------------
  // Character classes of the two patterns
  // ---------------------------------------------------------------------------

  predicate IsLower(c: char) { 'a' <= c <= 'z' }
  predicate IsUpper(c: char) { 'A' <= c <= 'Z' }
  /** `\d` of java.util.regex without UNICODE_CHARACTER_CLASS: ASCII digits only. */
  predicate IsDigit(c: char) { '0' <= c <= '9' }
  predicate IsSpecial(c: char) { c in "@$!%*?&" }

  /** `[a-zA-Z0-9]` */
  predicate IsUsernameChar(c: char) { IsLower(c) || IsUpper(c) || IsDigit(c) }

  /** `[A-Za-z\d@$!%*?&]` */
  predicate IsPasswordChar(c: char) { IsLower(c) || IsUpper(c) || IsDigit(c) || IsSpecial(c) }

  /** The characters java.util.regex's `.` does not match (no DOTALL, no UNIX_LINES). */
  predicate IsLineTerminator(c: char) {
    c == '\n' || c == '\r' || c == '\U{0085}' || c == '\U{2028}' || c == '\U{2029}'
  }

  // ---------------------------------------------------------------------------
  // The two patterns as String.matches runs them: the whole string must match
  // ---------------------------------------------------------------------------

  datatype Bound = AtMost(n: nat) | Unbounded

  /** `cls{lo,hi}` (or `cls{lo,}`) matched against all of `s`, one character at a time. */
  function MatchRepeat(s: string, cls: char -> bool, lo: nat, hi: Bound): bool
  {
    if s == [] then lo == 0
    else
      && (hi.AtMost? ==> hi.n > 0)
      && cls(s[0])
      && MatchRepeat(s[1..], cls, if lo == 0 then 0 else lo - 1,
                     if hi.AtMost? && hi.n > 0 then AtMost(hi.n - 1) else hi)
  }

  /** The lookahead `(?=.*cls)` at the start of `s`: some `cls` character occurs before any line terminator. */
  function LookaheadFinds(s: string, cls: char -> bool): bool
  {
    s != [] && (cls(s[0]) || (!IsLineTerminator(s[0]) && LookaheadFinds(s[1..], cls)))
  }

  // ---------------------------------------------------------------------------
  // The same rules stated directly on characters
  // ---------------------------------------------------------------------------

  /** 4 to 20 characters, each an ASCII letter or digit. */
  predicate UsernameRule(username: string) {
    && 4 <= |username| <= 20
    && forall i :: 0 <= i < |username| ==> IsUsernameChar(username[i])
  }

  predicate Contains(s: string, cls: char -> bool) {
    exists i :: 0 <= i < |s| && cls(s[i])
  }

  /**
   * At least 8 characters, at least one lowercase letter, one uppercase letter,
   * one digit and one of `@$!%*?&`, and nothing else than those.
   */
  predicate PasswordRule(password: string) {
    && |password| >= 8
    && Contains(password, IsLower)
    && Contains(password, IsUpper)
    && Contains(password, IsDigit)
    && Contains(password, IsSpecial)
    && forall i :: 0 <= i < |password| ==> IsPasswordChar(password[i])
  }

  lemma {:induction false} MatchRepeatIff(s: string, cls: char -> bool, lo: nat, hi: Bound)
    ensures MatchRepeat(s, cls, lo, hi) <==>
      && lo <= |s|
      && (hi.AtMost? ==> |s| <= hi.n)
      && forall i :: 0 <= i < |s| ==> cls(s[i])
  {
    if s != [] {
      var lo' := if lo == 0 then 0 else lo - 1;
      var hi' := if hi.AtMost? && hi.n > 0 then AtMost(hi.n - 1) else hi;
      MatchRepeatIff(s[1..], cls, lo', hi');
      if forall i :: 0 <= i < |s[1..]| ==> cls(s[1..][i]) {
        if cls(s[0]) {
          forall i | 0 <= i < |s| ensures cls(s[i]) {
            if i > 0 { assert s[i] == s[1..][i - 1]; }
          }
        }
      }
    }
  }

  /** Position `i` holds a `cls` character and no line terminator comes before it. */
  predicate FoundBeforeLineEnd(s: string, cls: char -> bool, i: int) {
    0 <= i < |s| && cls(s[i]) && forall j :: 0 <= j < i ==> !IsLineTerminator(s[j])
  }

  /** The lookahead `(?=.*cls)` succeeds exactly when a `cls` character occurs before the first line terminator. */
  lemma {:induction false} LookaheadFindsIff(s: string, cls: char -> bool)
    ensures LookaheadFinds(s, cls) <==> exists i :: FoundBeforeLineEnd(s, cls, i)
  {
    if s != [] {
      LookaheadFindsIff(s[1..], cls);
      if LookaheadFinds(s, cls) {
        if cls(s[0]) {
          assert FoundBeforeLineEnd(s, cls, 0);
        } else {
          var i :| FoundBeforeLineEnd(s[1..], cls, i);
          assert cls(s[i + 1]) by { assert s[i + 1] == s[1..][i]; }
          forall j | 0 <= j < i + 1 ensures !IsLineTerminator(s[j]) {
            if j > 0 { assert s[j] == s[1..][j - 1]; }
          }
          assert FoundBeforeLineEnd(s, cls, i + 1);
        }
      }
      if exists i :: FoundBeforeLineEnd(s, cls, i) {
        var i :| FoundBeforeLineEnd(s, cls, i);
        if i > 0 && !cls(s[0]) {
          assert !IsLineTerminator(s[0]);
          forall j | 0 <= j < i - 1 ensures !IsLineTerminator(s[1..][j]) {
            assert s[1..][j] == s[j + 1];
          }
          assert FoundBeforeLineEnd(s[1..], cls, i - 1);
        }
      }
    }
  }

  /** In a string without line terminators the lookahead is plain containment. */
  lemma LookaheadFindsWithoutLineEnds(s: string, cls: char -> bool)
    requires forall i :: 0 <= i < |s| ==> !IsLineTerminator(s[i])
    ensures LookaheadFinds(s, cls) <==> Contains(s, cls)
  {
    LookaheadFindsIff(s, cls);
    if Contains(s, cls) {
      var i :| 0 <= i < |s| && cls(s[i]);
      assert FoundBeforeLineEnd(s, cls, i);
    }
  }

  /** Once every character is a password character, the four lookaheads are plain containment. */
  lemma LookaheadsOfPasswordChars(password: string)
    ensures (forall i :: 0 <= i < |password| ==> IsPasswordChar(password[i])) ==>
      && (LookaheadFinds(password, IsLower) <==> Contains(password, IsLower))
      && (LookaheadFinds(password, IsUpper) <==> Contains(password, IsUpper))
      && (LookaheadFinds(password, IsDigit) <==> Contains(password, IsDigit))
      && (LookaheadFinds(password, IsSpecial) <==> Contains(password, IsSpecial))
  {
    if forall i :: 0 <= i < |password| ==> IsPasswordChar(password[i]) {
      forall i | 0 <= i < |password| ensures !IsLineTerminator(password[i]) {
        assert IsPasswordChar(password[i]);
      }
      LookaheadFindsWithoutLineEnds(password, IsLower);
      LookaheadFindsWithoutLineEnds(password, IsUpper);
      LookaheadFindsWithoutLineEnds(password, IsDigit);
      LookaheadFindsWithoutLineEnds(password, IsSpecial);
    }
  }

  /** `username.matches("[a-zA-Z0-9]{4,20}")`: exactly the 4-to-20-character ASCII alphanumeric names. */
  function UsernameMatches(username: string): (matched: bool)
    ensures matched <==> UsernameRule(username)
  {
    MatchRepeatIff(username, IsUsernameChar, 4, AtMost(20));
    MatchRepeat(username, IsUsernameChar, 4, AtMost(20))
  }

  /**
   * `password.matches("^(?=.*[a-z])(?=.*[A-Z])(?=.*\\d)(?=.*[@$!%*?&])[A-Za-z\\d@$!%*?&]{8,}$")`:
   * the lookaheads and the repetition together accept exactly the passwords PasswordRule describes.
   */
  function PasswordMatches(password: string): (matched: bool)
    ensures matched <==> PasswordRule(password)
  {
    MatchRepeatIff(password, IsPasswordChar, 8, Unbounded);
    LookaheadsOfPasswordChars(password);
    && LookaheadFinds(password, IsLower)
    && LookaheadFinds(password, IsUpper)
    && LookaheadFinds(password, IsDigit)
    && LookaheadFinds(password, IsSpecial)
    && MatchRepeat(password, IsPasswordChar, 8, Unbounded)
  }

  // ---------------------------------------------------------------------------
  // The validation chain
  // ---------------------------------------------------------------------------

  /** One check of the chain, each reported with its own message by the form. */
  datatype Rule =
    | EmptyUsername
    | EmptyPassword
    | EmptyConfirmation
    | UsernameFormat
    | PasswordComplexity
    | PasswordMismatch

  /** Position of a check in the chain. */
  function Order(rule: Rule): nat {
    match rule
    case EmptyUsername => 0
    case EmptyPassword => 1
    case EmptyConfirmation => 2
    case UsernameFormat => 3
    case PasswordComplexity => 4
    case PasswordMismatch => 5
  }

  /** Whether the (already trimmed) inputs break `rule`, stated on characters. */
  predicate Breaks(rule: Rule, username: string, password: string, confirm: string) {
    match rule
    case EmptyUsername => username == []
    case EmptyPassword => password == []
    case EmptyConfirmation => confirm == []
    case UsernameFormat => !UsernameRule(username)
    case PasswordComplexity => !PasswordRule(password)
    case PasswordMismatch => password != confirm
  }

  /**
   * The checks of registerBtnActionPerformed on the raw field contents, in the
   * order the handler makes them: the first failing check, or None when all pass.
   */
  function Validate(usernameField: string, passwordField: string, confirmField: string): (failed: Option<Rule>)
    ensures failed == Some(EmptyUsername) <==> AllBlank(usernameField)
    ensures failed == None <==>
      UsernameRule(Trim(usernameField)) && PasswordRule(Trim(passwordField)) && Trim(passwordField) == Trim(confirmField)
  {
    var username, password, confirm := Trim(usernameField), Trim(passwordField), Trim(confirmField);
    if username == [] then Some(EmptyUsername)
    else if password == [] then Some(EmptyPassword)
    else if confirm == [] then Some(EmptyConfirmation)
    else if !UsernameMatches(username) then Some(UsernameFormat)
    else if !PasswordMatches(password) then Some(PasswordComplexity)
    else if password != confirm then Some(PasswordMismatch)
    else None
  }

  /**
   * The first violation wins: Validate reports `rule` exactly when the trimmed
   * inputs break `rule` and no check earlier in the chain, and reports nothing
   * exactly when no check is broken.
   */
  lemma FirstViolationWins(usernameField: string, passwordField: string, confirmField: string)
    ensures var u, p, c := Trim(usernameField), Trim(passwordField), Trim(confirmField);
      && (Validate(usernameField, passwordField, confirmField) == None <==>
            forall rule: Rule :: !Breaks(rule, u, p, c))
      && forall rule: Rule :: Validate(usernameField, passwordField, confirmField) == Some(rule) <==>
            Breaks(rule, u, p, c) && forall earlier: Rule :: Order(earlier) < Order(rule) ==> !Breaks(earlier, u, p, c)
  {
    var u, p, c := Trim(usernameField), Trim(passwordField), Trim(confirmField);
    var v := Validate(usernameField, passwordField, confirmField);
    forall rule: Rule
      ensures v == Some(rule) <==>
        Breaks(rule, u, p, c) && forall earlier: Rule :: Order(earlier) < Order(rule) ==> !Breaks(earlier, u, p, c)
    {
      if Breaks(rule, u, p, c) && forall earlier: Rule :: Order(earlier) < Order(rule) ==> !Breaks(earlier, u, p, c) {
        match rule
        case EmptyUsername =>
        case EmptyPassword => assert !Breaks(EmptyUsername, u, p, c);
        case EmptyConfirmation =>
          assert !Breaks(EmptyUsername, u, p, c) && !Breaks(EmptyPassword, u, p, c);
        case UsernameFormat =>
          assert !Breaks(EmptyUsername, u, p, c) && !Breaks(EmptyPassword, u, p, c);
          assert !Breaks(EmptyConfirmation, u, p, c);
        case PasswordComplexity =>
          assert !Breaks(EmptyUsername, u, p, c) && !Breaks(EmptyPassword, u, p, c);
          assert !Breaks(EmptyConfirmation, u, p, c) && !Breaks(UsernameFormat, u, p, c);
        case PasswordMismatch =>
          assert !Breaks(EmptyUsername, u, p, c) && !Breaks(EmptyPassword, u, p, c);
          assert !Breaks(EmptyConfirmation, u, p, c) && !Breaks(UsernameFormat, u, p, c);
          assert !Breaks(PasswordComplexity, u, p, c);
      }
    }
    if forall rule: Rule :: !Breaks(rule, u, p, c) {
      assert v == None;
    }
  }

  // ---------------------------------------------------------------------------
  // Concrete inputs
  // ---------------------------------------------------------------------------

  /** An all-blank username is reported first, whatever else is wrong. */
  lemma BlankUsernameFirst(usernameField: string, passwordField: string, confirmField: string)
    requires AllBlank(usernameField)
    ensures Validate(usernameField, passwordField, confirmField) == Some(EmptyUsername)
  {
    TrimSpec(usernameField);
  }

  lemma ShortUsernameRejected()
    ensures Validate("ab", "Admin@1234", "Admin@1234") == Some(UsernameFormat)
  {
    TrimOfUnpadded("ab");
    TrimOfUnpadded("Admin@1234");
  }

  lemma UsernameWithSpaceRejected()
    ensures Validate("john doe", "Admin@1234", "Admin@1234") == Some(UsernameFormat)
  {
    TrimOfUnpadded("john doe");
    TrimOfUnpadded("Admin@1234");
    assert !IsUsernameChar("john doe"[4]);
  }

  lemma ShortPasswordRejected()
    ensures Validate("johndoe", "short1!", "short1!") == Some(PasswordComplexity)
  {
    TrimOfUnpadded("johndoe");
    TrimOfUnpadded("short1!");
  }

  lemma PasswordWithoutUppercaseRejected()
    ensures Validate("johndoe", "alllowercase1!", "alllowercase1!") == Some(PasswordComplexity)
  {
    var u, p := "johndoe", "alllowercase1!";
    TrimOfUnpadded(u);
    TrimOfUnpadded(p);
    assert forall i :: 0 <= i < |p| ==> !IsUpper(p[i]);
    assert !PasswordMatches(p);
  }

  /** The sample name and password of the examples below satisfy both rules. */
  lemma SampleCredentials()
    ensures UsernameRule("johndoe")
    ensures PasswordRule("Admin@1234")
  {
    var p := "Admin@1234";
    assert IsLower(p[1]) && IsUpper(p[0]) && IsDigit(p[6]) && IsSpecial(p[5]);
  }

  lemma MismatchRejected()
    ensures Validate("johndoe", "Admin@1234", "Admin@1243") == Some(PasswordMismatch)
  {
    var u, p, c := "johndoe", "Admin@1234", "Admin@1243";
    TrimOfUnpadded(u);
    TrimOfUnpadded(p);
    TrimOfUnpadded(c);
    SampleCredentials();
    assert p != c by { assert p[8] != c[8]; }
  }

  lemma StrongPasswordAccepted()
    ensures Validate("johndoe", "Admin@1234", "Admin@1234") == None
  {
    var u, p := "johndoe", "Admin@1234";
    TrimOfUnpadded(u);
    TrimOfUnpadded(p);
    SampleCredentials();
  }

  /**
   * Any non-blank confirmation that differs from a valid password, under a valid
   * username, is reported by the mismatch check and by nothing earlier.
   */
  lemma MismatchReported(usernameField: string, passwordField: string, confirmField: string)
    requires UsernameRule(Trim(usernameField)) && PasswordRule(Trim(passwordField))
    requires Trim(confirmField) != [] && Trim(confirmField) != Trim(passwordField)
    ensures Validate(usernameField, passwordField, confirmField) == Some(PasswordMismatch)
  {
    FirstViolationWins(usernameField, passwordField, confirmField);
  }

  /** The checks see the fields only after trimming: blanks around any field change no verdict. */
  lemma PaddingIgnored(username: string, password: string, confirm: string,
                       pre1: string, post1: string, pre2: string, post2: string, pre3: string, post3: string)
    requires AllBlank(pre1) && AllBlank(post1) && AllBlank(pre2) && AllBlank(post2) && AllBlank(pre3) && AllBlank(post3)
    ensures Validate(pre1 + username + post1, pre2 + password + post2, pre3 + confirm + post3)
         == Validate(username, password, confirm)
  {
    TrimIgnoresPadding(username, pre1, post1);
    TrimIgnoresPadding(password, pre2, post2);
    TrimIgnoresPadding(confirm, pre3, post3);
  }

  // ---------------------------------------------------------------------------
  // Registering
  // ---------------------------------------------------------------------------

  /** The role code of a self-registered user (Client). */
  const ClientRole: int := 2

  /**
   * registerBtnActionPerformed: on the first failed check nothing is stored; when
   * every check passes, addUser runs once with the trimmed username, the hash of
   * the trimmed password, and the client role. A taken username is swallowed by
   * addUser, so the form reports success while the table keeps its old row.
   */
  method AttemptRegistration(db: SQLite.Database, usernameField: string, passwordField: string, confirmField: string)
    returns (failed: Option<Rule>)
    modifies db
    ensures failed == Validate(usernameField, passwordField, confirmField)
    ensures failed == None ==>
      db.Snapshot() == SQLite.Inserted(old(db.Snapshot()), Trim(usernameField),
                                       SQLite.HexOf(db.digest(Trim(passwordField))), ClientRole)
    ensures failed != None ==> db.Snapshot() == old(db.Snapshot())
  {
    failed := Validate(usernameField, passwordField, confirmField);
    if failed == None {
      db.AddUser(Trim(usernameField), Trim(passwordField), ClientRole);
    }
  }

  /**
   * A password that passes the complexity check is never stored as it was typed:
   * it holds an uppercase letter, which a lowercase hex digest never does.
   */
  lemma StoredHashIsNotThePassword(password: string, digestBytes: seq<SQLite.JByte>)
    requires PasswordMatches(password)
    ensures SQLite.HexOf(digestBytes) != password
  {
  }
}
