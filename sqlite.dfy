/**
 * The users and logs tables of src/Controller/SQLite.java as the program sees
 * them, the SHA-256 hex encoding addUser applies to passwords, and the four
 * account operations the login form relies on.
 */
module SQLite {

  import opened Optional

  // ---------------------------------------------------------------------------
  // hashPassword: digest bytes written as lowercase hexadecimal
  // ---------------------------------------------------------------------------

  /** A Java `byte`: signed, 8 bits. */
  newtype JByte = b: int | -128 <= b < 128

  /** `0xff & b`: the byte read as an unsigned value. */
  function Unsigned(b: JByte): (u: nat)
    ensures u < 256
    ensures (u - b as int) % 256 == 0
  {
    if b < 0 then b as int + 256 else b as int
  }

  /** The `(byte)` cast of an unsigned value: the inverse of Unsigned. */
  function ToJByte(u: nat): (b: JByte)
    requires u < 256
    ensures Unsigned(b) == u
  {
    if u < 128 then u as JByte else (u - 256) as JByte
  }

  predicate IsHexDigit(c: char) {
    '0' <= c <= '9' || 'a' <= c <= 'f'
  }

  /** The lowercase hex digit for `d`. */
  function Digit(d: nat): (c: char)
    requires d < 16
    ensures IsHexDigit(c)
  {
    if d < 10 then ('0' as int + d) as char else ('a' as int + d - 10) as char
  }

  function DigitValue(c: char): (d: nat)
    requires IsHexDigit(c)
    ensures d < 16 && Digit(d) == c
  {
    if c <= '9' then (c - '0') as nat else (c - 'a') as nat + 10
  }

  lemma DigitValueOfDigit(d: nat)
    requires d < 16
    ensures DigitValue(Digit(d)) == d
  {
  }

  /** The value of a string of hex digits, most significant first. */
  function HexValue(s: string): nat
    requires forall i :: 0 <= i < |s| ==> IsHexDigit(s[i])
  {
    if s == [] then 0 else 16 * HexValue(s[..|s| - 1]) + DigitValue(s[|s| - 1])
  }

  /** Integer.toHexString of a non-negative int: lowercase hex digits without leading zeros. */
  function ToHexString(n: nat): (s: string)
    ensures 1 <= |s|
    ensures forall i :: 0 <= i < |s| ==> IsHexDigit(s[i])
    ensures HexValue(s) == n
    ensures |s| > 1 ==> s[0] != '0'
  {
    if n < 16 then [Digit(n)]
    else
      var s := ToHexString(n / 16) + [Digit(n % 16)];
      assert s[..|s| - 1] == ToHexString(n / 16);
      s
  }

  /** The two characters hashPassword writes for one byte. */
  function ByteHex(b: JByte): (hex: string)
    ensures |hex| == 2 && IsHexDigit(hex[0]) && IsHexDigit(hex[1])
    ensures 16 * DigitValue(hex[0]) + DigitValue(hex[1]) == Unsigned(b)
  {
    DigitValueOfDigit(Unsigned(b) / 16);
    DigitValueOfDigit(Unsigned(b) % 16);
    [Digit(Unsigned(b) / 16), Digit(Unsigned(b) % 16)]
  }

  /**
   * One iteration of the loop: Integer.toHexString(0xff & b), preceded by '0'
   * when it has a single digit, is the byte's two-digit form.
   */
  lemma PaddedToHexString(b: JByte)
    ensures var hex := ToHexString(Unsigned(b));
      (if |hex| == 1 then "0" + hex else hex) == ByteHex(b)
  {
    var u := Unsigned(b);
    if u >= 16 {
      assert ToHexString(u / 16) == [Digit(u / 16)];
    }
  }

  /** The string hashPassword builds from the digest bytes. */
  function HexOf(bytes: seq<JByte>): (hex: string)
    ensures |hex| == 2 * |bytes|
    ensures forall i :: 0 <= i < |hex| ==> IsHexDigit(hex[i])
  {
    if bytes == [] then [] else ByteHex(bytes[0]) + HexOf(bytes[1..])
  }

  lemma {:induction false} HexOfAppend(bytes: seq<JByte>, b: JByte)
    ensures HexOf(bytes + [b]) == HexOf(bytes) + ByteHex(b)
  {
    if bytes != [] {
      assert (bytes + [b])[1..] == bytes[1..] + [b];
      HexOfAppend(bytes[1..], b);
    } else {
      assert bytes + [b] == [b];
    }
  }

  /** Reads a lowercase hex string back into bytes, two digits per byte. */
  function Unhex(hex: string): Option<seq<JByte>>
  {
    if hex == [] then Some([])
    else if |hex| == 1 || !IsHexDigit(hex[0]) || !IsHexDigit(hex[1]) then None
    else match Unhex(hex[2..])
      case None => None
      case Some(rest) => Some([ToJByte(16 * DigitValue(hex[0]) + DigitValue(hex[1]))] + rest)
  }

  /** The encoding loses nothing: decoding it gives back the digest bytes. */
  lemma {:induction false} UnhexHexOf(bytes: seq<JByte>)
    ensures Unhex(HexOf(bytes)) == Some(bytes)
  {
    if bytes != [] {
      var b := bytes[0];
      var hex := HexOf(bytes);
      assert hex[..2] == ByteHex(b) && hex[2..] == HexOf(bytes[1..]);
      UnhexHexOf(bytes[1..]);
      var u := Unsigned(b);
      DigitValueOfDigit(u / 16);
      DigitValueOfDigit(u % 16);
      assert hex[0] == Digit(u / 16) && hex[1] == Digit(u % 16);
      assert 16 * DigitValue(hex[0]) + DigitValue(hex[1]) == u;
      assert ToJByte(u) == b;
      assert Unhex(hex) == Some([b] + bytes[1..]);
      assert [b] + bytes[1..] == bytes;
    }
  }

  /** Distinct digests give distinct hex strings. */
  lemma HexOfInjective(a: seq<JByte>, b: seq<JByte>)
    ensures HexOf(a) == HexOf(b) ==> a == b
  {
    UnhexHexOf(a);
    UnhexHexOf(b);
  }

  // ---------------------------------------------------------------------------
  // Table contents
  // ---------------------------------------------------------------------------

  /**
   * A row of the users table, keyed by its UNIQUE username. `failures` is the
   * failed-login counter the login form expects the store to keep.
   */
  datatype UserRow = UserRow(id: int, password: string, role: int, locked: int, failures: nat)

  /** Model.User: what the store hands out. */
  datatype User = User(id: int, username: string, password: string, role: int, locked: int)

  /** A row of the logs table. */
  datatype LogRow = LogRow(id: int, event: string, username: string, desc: string, timestamp: string)

  /** Both tables, and the next id AUTOINCREMENT gives out in each. */
  datatype Tables = Tables(users: map<string, UserRow>, logs: seq<LogRow>, nextUserId: int, nextLogId: int)

  /** `INSERT INTO users(username,password,role)`; a second row for a username breaks UNIQUE and is dropped. */
  function Inserted(t: Tables, username: string, hash: string, role: int): (t': Tables)
    ensures username in t.users ==> t' == t
    ensures t'.users.Keys == t.users.Keys + {username}
    ensures username !in t.users ==>
      && t'.users[username] == UserRow(t.nextUserId, hash, role, 0, 0)
      && t'.nextUserId == t.nextUserId + 1
    ensures forall other :: other in t.users ==> t'.users[other] == t.users[other]
    ensures t'.logs == t.logs && t'.nextLogId == t.nextLogId
  {
    if username in t.users then t
    else t.(users := t.users[username := UserRow(t.nextUserId, hash, role, 0, 0)],
            nextUserId := t.nextUserId + 1)
  }

  /** `DELETE FROM users WHERE username=?` */
  function Deleted(t: Tables, username: string): (t': Tables)
    ensures t'.users.Keys == t.users.Keys - {username}
    ensures forall other :: other in t'.users ==> t'.users[other] == t.users[other]
    ensures t'.(users := t.users) == t
  {
    t.(users := t.users - {username})
  }

  /** `INSERT INTO logs(event,username,desc,timestamp)` */
  function Logged(t: Tables, event: string, username: string, desc: string, timestamp: string): (t': Tables)
    ensures |t'.logs| == |t.logs| + 1 && t'.logs[..|t.logs|] == t.logs
    ensures t'.logs[|t.logs|] == LogRow(t.nextLogId, event, username, desc, timestamp)
    ensures t'.nextLogId == t.nextLogId + 1
    ensures t'.users == t.users && t'.nextUserId == t.nextUserId
  {
    t.(logs := t.logs + [LogRow(t.nextLogId, event, username, desc, timestamp)], nextLogId := t.nextLogId + 1)
  }

  /** The row for `username` as a User, password included, or None. */
  function Lookup(t: Tables, username: string): (r: Option<User>)
    ensures r.Some? <==> username in t.users
    ensures r.Some? ==> var row := t.users[username];
      r.value == User(row.id, username, row.password, row.role, row.locked)
  {
    if username in t.users then
      var row := t.users[username];
      Some(User(row.id, username, row.password, row.role, row.locked))
    else None
  }

  /** The counter of `username` raised by one, with its new value; 0 and no change for an unknown name. */
  function Incremented(t: Tables, username: string): (r: (Tables, int))
    ensures r.0.users.Keys == t.users.Keys
    ensures username in t.users ==>
      && r.1 == t.users[username].failures + 1
      && r.0.users[username] == t.users[username].(failures := r.1)
    ensures username !in t.users ==> r == (t, 0)
    ensures forall other :: other in t.users && other != username ==> r.0.users[other] == t.users[other]
    ensures r.0.(users := t.users) == t
  {
    if username in t.users then
      var row := t.users[username];
      (t.(users := t.users[username := row.(failures := row.failures + 1)]), row.failures + 1)
    else (t, 0)
  }

  /** The counter of `username` set to 0. */
  function Reset(t: Tables, username: string): (t': Tables)
    ensures t'.users.Keys == t.users.Keys
    ensures username in t.users ==> t'.users[username] == t.users[username].(failures := 0)
    ensures forall other :: other in t.users && other != username ==> t'.users[other] == t.users[other]
    ensures t'.(users := t.users) == t
  {
    if username in t.users then t.(users := t.users[username := t.users[username].(failures := 0)])
    else t
  }

  /** The locked column of `username` set to 1. */
  function Locked(t: Tables, username: string): (t': Tables)
    ensures t'.users.Keys == t.users.Keys
    ensures username in t.users ==> t'.users[username] == t.users[username].(locked := 1)
    ensures forall other :: other in t.users && other != username ==> t'.users[other] == t.users[other]
    ensures t'.(users := t.users) == t
  {
    if username in t.users then t.(users := t.users[username := t.users[username].(locked := 1)])
    else t
  }

  /** A fresh row has locked = 0, a zero counter, and the given hash and role; a duplicate changes nothing. */
  lemma InsertedRow(t: Tables, username: string, hash: string, role: int)
    ensures username !in t.users ==>
      && Lookup(Inserted(t, username, hash, role), username) == Some(User(t.nextUserId, username, hash, role, 0))
      && Inserted(t, username, hash, role).users[username].failures == 0
      && Inserted(t, username, hash, role).logs == t.logs
    ensures username in t.users ==> Inserted(t, username, hash, role) == t
    ensures forall other :: other != username ==> Lookup(Inserted(t, username, hash, role), other) == Lookup(t, other)
  {
  }

  /** Deleting removes exactly the named row. */
  lemma DeletedRow(t: Tables, username: string)
    ensures Lookup(Deleted(t, username), username) == None
    ensures forall other :: other != username ==> Lookup(Deleted(t, username), other) == Lookup(t, other)
    ensures Deleted(t, username).users.Keys == t.users.Keys - {username}
  {
  }

  /** Deleting a row just inserted gives back the table it was inserted into. */
  lemma InsertThenDelete(t: Tables, username: string, hash: string, role: int)
    requires username !in t.users
    ensures Deleted(Inserted(t, username, hash, role), username).users == t.users
  {
    assert Deleted(Inserted(t, username, hash, role), username).users == t.users[username := UserRow(t.nextUserId, hash, role, 0, 0)] - {username};
  }

  /**
   * Raising the counter reports its new value and keeps the lock flag; resetting
   * and locking are idempotent. (Each operation's own contract states that no
   * other row and no other part of the tables changes.)
   */
  lemma CounterOperations(t: Tables, username: string)
    ensures var (t', n) := Incremented(t, username);
      && (username in t.users ==> n == t.users[username].failures + 1 && t'.users[username].failures == n
                                  && t'.users[username].locked == t.users[username].locked)
      && (username !in t.users ==> n == 0 && t' == t)
      && t'.users.Keys == t.users.Keys && t'.logs == t.logs
    ensures username in t.users ==> Reset(t, username).users[username] == t.users[username].(failures := 0)
    ensures username in t.users ==> Locked(t, username).users[username] == t.users[username].(locked := 1)
    ensures Reset(Reset(t, username), username) == Reset(t, username)
    ensures Locked(Locked(t, username), username) == Locked(t, username)
  {
  }

  // ---------------------------------------------------------------------------
  // The store
  // ---------------------------------------------------------------------------

  class Database {
    /** MessageDigest SHA-256 over the password's platform-encoded bytes; not modelled. */
    const digest: string -> seq<JByte>

    var users: map<string, UserRow>
    var logs: seq<LogRow>
    var nextUserId: int
    var nextLogId: int

    function Snapshot(): Tables
      reads this
    {
      Tables(users, logs, nextUserId, nextLogId)
    }

    /** Freshly created tables: no rows, AUTOINCREMENT starting at 1. */
    constructor (digest: string -> seq<JByte>)
      ensures this.digest == digest
      ensures Snapshot() == Tables(map[], [], 1, 1)
    {
      this.digest := digest;
      users, logs := map[], [];
      nextUserId, nextLogId := 1, 1;
    }

    /** hashPassword: the digest of `plainTextPassword`, two lowercase hex digits per byte. */
    method HashPassword(plainTextPassword: string) returns (hex: string)
      ensures hex == HexOf(digest(plainTextPassword))
    {
      var hashBytes := digest(plainTextPassword);
      hex := "";
      for i := 0 to |hashBytes|
        invariant hex == HexOf(hashBytes[..i])
      {
        var b := hashBytes[i];
        var digits := ToHexString(Unsigned(b));
        PaddedToHexString(b);
        if |digits| == 1 {
          hex := hex + "0";
        }
        hex := hex + digits;
        HexOfAppend(hashBytes[..i], b);
        assert hashBytes[..i + 1] == hashBytes[..i] + [b];
      }
      assert hashBytes[..|hashBytes|] == hashBytes;
    }

    /** addUser: stores the hashed password under a new id; a taken username leaves the table as it was. */
    method AddUser(username: string, password: string, role: int)
      modifies this
      ensures Snapshot() == Inserted(old(Snapshot()), username, HexOf(digest(password)), role)
    {
      var hashedPassword := HashPassword(password);
      if username !in users {
        users := users[username := UserRow(nextUserId, hashedPassword, role, 0, 0)];
        nextUserId := nextUserId + 1;
      }
    }

    /** removeUser */
    method RemoveUser(username: string)
      modifies this
      ensures Snapshot() == Deleted(old(Snapshot()), username)
    {
      users := users - {username};
    }

    /** addLogs: appends one row to the logs table. */
    method AddLogs(event: string, username: string, desc: string, timestamp: string)
      modifies this
      ensures Snapshot() == Logged(old(Snapshot()), event, username, desc, timestamp)
    {
      logs := logs + [LogRow(nextLogId, event, username, desc, timestamp)];
      nextLogId := nextLogId + 1;
    }

    /**
     * getUsers: one User per row, with id, username, role and locked copied and
     * the password left empty. Without ORDER BY the row order is not fixed.
     */
    method GetUsers() returns (list: seq<User>)
      ensures |list| == |users|
      ensures forall i :: 0 <= i < |list| ==>
        && list[i].username in users
        && list[i] == User(users[list[i].username].id, list[i].username, "",
                           users[list[i].username].role, users[list[i].username].locked)
      ensures forall username :: username in users ==> exists i :: 0 <= i < |list| && list[i].username == username
      ensures forall i, j :: 0 <= i < j < |list| ==> list[i].username != list[j].username
    {
      list := [];
      var pending := users.Keys;
      while pending != {}
        invariant pending <= users.Keys
        invariant |list| + |pending| == |users|
        invariant forall i :: 0 <= i < |list| ==>
          && list[i].username in users.Keys - pending
          && list[i] == User(users[list[i].username].id, list[i].username, "",
                             users[list[i].username].role, users[list[i].username].locked)
        invariant forall username :: username in users.Keys - pending ==>
          exists i :: 0 <= i < |list| && list[i].username == username
        invariant forall i, j :: 0 <= i < j < |list| ==> list[i].username != list[j].username
        decreases pending
      {
        var username :| username in pending;
        var row := users[username];
        ghost var before, waiting := list, pending;
        list := list + [User(row.id, username, "", row.role, row.locked)];
        assert forall i :: 0 <= i < |before| ==> list[i] == before[i];
        pending := pending - {username};
        forall other | other in users.Keys - pending
          ensures exists i :: 0 <= i < |list| && list[i].username == other
        {
          if other == username {
            assert list[|before|].username == other;
          } else {
            assert other in users.Keys - waiting;
            var i :| 0 <= i < |before| && before[i].username == other;
            assert list[i].username == other;
          }
        }
      }
      assert users.Keys - pending == users.Keys;
    }

    /** getUserByUsername: the row for `username`, or None (null) when there is none. */
    method GetUserByUsername(username: string) returns (user: Option<User>)
      ensures user == Lookup(Snapshot(), username)
    {
      if username in users {
        var row := users[username];
        user := Some(User(row.id, username, row.password, row.role, row.locked));
      } else {
        user := None;
      }
    }

    /** incrementFailedLoginAttempts: raises the counter and returns its new value. */
    method IncrementFailedLoginAttempts(username: string) returns (count: int)
      modifies this
      ensures (Snapshot(), count) == Incremented(old(Snapshot()), username)
    {
      if username in users {
        var row := users[username];
        count := row.failures + 1;
        users := users[username := row.(failures := count)];
      } else {
        count := 0;
      }
    }

    /** resetFailedLoginAttempts: sets the counter to 0. */
    method ResetFailedLoginAttempts(username: string)
      modifies this
      ensures Snapshot() == Reset(old(Snapshot()), username)
    {
      if username in users {
        users := users[username := users[username].(failures := 0)];
      }
    }

    /** lockAccount: sets locked to 1. */
    method LockAccount(username: string)
      modifies this
      ensures Snapshot() == Locked(old(Snapshot()), username)
    {
      if username in users {
        users := users[username := users[username].(locked := 1)];
      }
    }
  }
}
