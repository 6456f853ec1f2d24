/**
 * The users table of `DatabaseManager` (db_manager.py): a table keyed by a
 * unique username that holds a bcrypt password hash and a role, with
 * registration, credential check, role lookup and the bulk import from a
 * `username,password_hash,role` text file.
 */
module Credentials {
  import opened Wrappers
  import opened Text

  /** Version and cost prefix of a hash made with `bcrypt.gensalt()` defaults (version 2b, 12 rounds). */
  const HashPrefix: string := "$2b$12$"

  /** Length of the version-and-cost prefix `$2?$NN$` of every bcrypt hash. */
  const SettingLength: nat := 7

  /** Length of the encoded salt that follows the prefix in a bcrypt hash. */
  const SaltLength: nat := 22

  /** The salt `bcrypt.gensalt()` produces; it is random, so it is a parameter here. */
  type Salt = s: string | |s| == SaltLength witness "......................"

  predicate IsDigit(c: char)
  {
    '0' <= c <= '9'
  }

  /**
   * A version-and-cost prefix bcrypt accepts: `$2a$`, `$2b$` or `$2y$`, two
   * decimal digits of cost between 4 and 31, then `$`.
   */
  predicate IsSetting(setting: string)
  {
    && |setting| == SettingLength
    && setting[0] == '$' && setting[1] == '2' && setting[2] in {'a', 'b', 'y'} && setting[3] == '$'
    && IsDigit(setting[4]) && IsDigit(setting[5]) && setting[6] == '$'
    && 4 <= (setting[4] as int - '0' as int) * 10 + (setting[5] as int - '0' as int) <= 31
  }

  /**
   * Stand-in for bcrypt's hash of `password` under a prefix and a salt: the
   * result carries the prefix and the salt in bcrypt's layout, followed by a
   * digest of the password. The digest is the password itself.
   */
  function HashWith(setting: string, salt: Salt, password: string): string
  {
    setting + salt + password
  }

  /** `bcrypt.hashpw(password, salt)` with a salt from `bcrypt.gensalt()`. */
  function HashPw(password: string, salt: Salt): string
  {
    HashWith(HashPrefix, salt, password)
  }

  /** The stored value has bcrypt's layout: a prefix bcrypt accepts, then a salt. */
  predicate IsBcryptHash(stored: string)
  {
    |stored| >= SettingLength + SaltLength && IsSetting(stored[..SettingLength])
  }

  /**
   * `bcrypt.checkpw(password, stored)`: re-hashes `password` with the prefix
   * and the salt found in `stored`. `None` stands for the ValueError bcrypt
   * raises when `stored` is not a bcrypt hash at all.
   */
  function CheckPw(password: string, stored: string): (verdict: Option<bool>)
    ensures verdict.None? <==> !IsBcryptHash(stored)
  {
    if !IsBcryptHash(stored) then None
    else Some(HashWith(stored[..SettingLength], stored[SettingLength..SettingLength + SaltLength], password) == stored)
  }

  /** A hash made under any accepted prefix is accepted for its own password and refused for every other one. */
  lemma CheckAnySetting(setting: string, salt: Salt, password: string, other: string)
    requires IsSetting(setting)
    ensures CheckPw(password, HashWith(setting, salt, password)) == Some(true)
    ensures other != password ==> CheckPw(other, HashWith(setting, salt, password)) == Some(false)
  {
    var h := HashWith(setting, salt, password);
    assert h[..SettingLength] == setting;
    assert h[SettingLength..SettingLength + SaltLength] == salt;
    assert HashWith(setting, salt, other)[SettingLength + SaltLength..] == other;
    assert h[SettingLength + SaltLength..] == password;
  }

  /** The `gensalt()` defaults are an accepted prefix; hashes from versions 2a and 2y are checked too, a cost of 3 is not. */
  lemma SettingExamples(salt: Salt, password: string)
    ensures IsSetting(HashPrefix)
    ensures CheckPw(password, HashWith("$2a$10$", salt, password)) == Some(true)
    ensures CheckPw(password, HashWith("$2y$31$", salt, password)) == Some(true)
    ensures CheckPw(password, HashWith("$2b$03$", salt, password)).None?
    ensures CheckPw(password, HashWith("$2x$12$", salt, password)).None?
  {
    CheckAnySetting("$2a$10$", salt, password, password);
    CheckAnySetting("$2y$31$", salt, password, password);
    assert HashWith("$2b$03$", salt, password)[..SettingLength] == "$2b$03$";
    assert HashWith("$2x$12$", salt, password)[..SettingLength] == "$2x$12$";
  }

  /** A hash made from a password is accepted for that password. */
  lemma CheckAcceptsOwnHash(password: string, salt: Salt)
    ensures CheckPw(password, HashPw(password, salt)) == Some(true)
  {
    CheckAnySetting(HashPrefix, salt, password, password);
  }

  /** A hash made from a password is refused for any other password. */
  lemma CheckRejectsOtherPassword(password: string, other: string, salt: Salt)
    requires other != password
    ensures CheckPw(other, HashPw(password, salt)) == Some(false)
  {
    CheckAnySetting(HashPrefix, salt, password, other);
  }

  /** Two salts give two different hashes of the same password. */
  lemma SaltsSeparateHashes(password: string, salt1: Salt, salt2: Salt)
    requires salt1 != salt2
    ensures HashPw(password, salt1) != HashPw(password, salt2)
  {
    assert HashPw(password, salt1)[SettingLength..SettingLength + SaltLength] == salt1;
    assert HashPw(password, salt2)[SettingLength..SettingLength + SaltLength] == salt2;
  }

  /** One row of the users table, without its key. */
  datatype UserRecord = UserRecord(passwordHash: string, role: string)

  /** The users table; a map, so each username has at most one row (the UNIQUE constraint). */
  type Users = map<string, UserRecord>

  /**
   * `INSERT INTO users ...` under the UNIQUE constraint on `username`: the
   * row is added when the name is new, and the insert fails otherwise.
   */
  function Insert(users: Users, username: string, row: UserRecord): (after: Users)
    ensures username in after
    ensures username !in users ==> after[username] == row
    ensures username in users ==> after == users
    ensures after.Keys == users.Keys + {username}
    ensures forall u :: u in users ==> u in after && after[u] == users[u]
  {
    if username in users then users else users[username := row]
  }

  /** `verify_user`: `None` where bcrypt raises on a stored value that is not a bcrypt hash. */
  function Verify(users: Users, username: string, password: string): (verdict: Option<bool>)
    ensures username !in users ==> verdict == Some(false)
    ensures verdict == Some(true) ==> username in users
  {
    if username in users then CheckPw(password, users[username].passwordHash) else Some(false)
  }

  /** `get_user_role`: the stored role, `None` for an unknown username. */
  function RoleOf(users: Users, username: string): (role: Option<string>)
    ensures role.Some? <==> username in users
    ensures role.Some? ==> role.value == users[username].role
  {
    if username in users then Some(users[username].role) else None
  }

  /**
   * Registering a new name and then logging in with the same password
   * succeeds, the role read back is the one registered, and no other row changed.
   */
  lemma RegisterThenVerify(users: Users, username: string, password: string, salt: Salt, role: string)
    requires username !in users
    ensures Verify(Insert(users, username, UserRecord(HashPw(password, salt), role)), username, password) == Some(true)
    ensures RoleOf(Insert(users, username, UserRecord(HashPw(password, salt), role)), username) == Some(role)
    ensures forall u :: u != username ==>
              RoleOf(Insert(users, username, UserRecord(HashPw(password, salt), role)), u) == RoleOf(users, u)
  {
    CheckAcceptsOwnHash(password, salt);
  }

  /**
   * Registering a name twice: the second insert changes nothing, so the
   * stored hash still accepts exactly the first password and the first role remains.
   */
  lemma RegisterTwiceKeepsFirst(users: Users, username: string, password1: string, salt1: Salt, role1: string,
                                password2: string, salt2: Salt, role2: string)
    requires username !in users
    ensures var once := Insert(users, username, UserRecord(HashPw(password1, salt1), role1));
            var twice := Insert(once, username, UserRecord(HashPw(password2, salt2), role2));
            && twice == once
            && Verify(twice, username, password1) == Some(true)
            && Verify(twice, username, password2) == Some(password2 == password1)
            && RoleOf(twice, username) == Some(role1)
  {
    CheckAcceptsOwnHash(password1, salt1);
    if password2 != password1 {
      CheckRejectsOtherPassword(password1, password2, salt1);
    }
  }

  /**
   * One line of the import file: blank lines and lines with fewer than three
   * comma-separated fields give `None`; otherwise the first three fields of
   * the stripped line are username, hash and role.
   */
  function ParseLine(line: string): Option<(string, UserRecord)>
  {
    var t := Strip(line);
    if t == [] then None
    else
      var parts := Split(t, ',');
      if |parts| < 3 then None else Some((parts[0], UserRecord(parts[1], parts[2])))
  }

  /**
   * What `ParseLine` takes from a line: it refuses exactly the blank lines and
   * the lines with fewer than two commas, and otherwise returns the first three
   * fields verbatim, comma-free, which make up the stripped line up to the end
   * or up to the third comma.
   */
  lemma ParseLineFields(line: string)
    ensures ParseLine(line).None? <==> Strip(line) == [] || |Split(Strip(line), ',')| < 3
    ensures ParseLine(line).Some? ==>
              var (u, row) := ParseLine(line).value;
              var t := Strip(line);
              var prefix := u + [','] + row.passwordHash + [','] + row.role;
              && ',' !in u && ',' !in row.passwordHash && ',' !in row.role
              && |prefix| <= |t| && t[..|prefix|] == prefix
              && (|prefix| == |t| || t[|prefix|] == ',')
  {
    var t := Strip(line);
    if t != [] {
      var parts := Split(t, ',');
      if |parts| >= 3 {
        JoinSplit(t, ',');
        JoinFirstThree(parts, ',');
      }
    }
  }

  /** Each line of the import file, parsed. */
  function Parsed(lines: seq<string>): (entries: seq<Option<(string, UserRecord)>>)
    ensures |entries| == |lines|
    ensures forall i :: 0 <= i < |lines| ==> entries[i] == ParseLine(lines[i])
  {
    seq(|lines|, i requires 0 <= i < |lines| => ParseLine(lines[i]))
  }

  /** The table after one parsed line of the import: a row is inserted unless its username exists. */
  function ImportEntry(users: Users, entry: Option<(string, UserRecord)>): Users
  {
    match entry
    case None => users
    case Some((username, row)) => Insert(users, username, row)
  }

  /** A row exists after one imported line exactly when it existed before or the line defines it. */
  lemma ImportEntryKeys(users: Users, entry: Option<(string, UserRecord)>, username: string)
    ensures username in ImportEntry(users, entry) <==>
              username in users || (entry.Some? && entry.value.0 == username)
  {
  }

  /** The table after importing the parsed lines in order (the loop of `migrate_users`). */
  function Migrated(users: Users, entries: seq<Option<(string, UserRecord)>>): Users
  {
    if entries == [] then users
    else ImportEntry(Migrated(users, entries[..|entries| - 1]), entries[|entries| - 1])
  }

  /** Importing the lines up to `i` and then line `i` imports the lines up to `i + 1`. */
  lemma MigratedStep(users: Users, entries: seq<Option<(string, UserRecord)>>, i: nat)
    requires i < |entries|
    ensures Migrated(users, entries[..i + 1]) == ImportEntry(Migrated(users, entries[..i]), entries[i])
  {
    assert entries[..i + 1][..i] == entries[..i];
  }

  /** The line at index `i` parses to a row for `username`. */
  predicate DefinesUser(entries: seq<Option<(string, UserRecord)>>, i: int, username: string)
  {
    0 <= i < |entries| && entries[i].Some? && entries[i].value.0 == username
  }

  /** Importing never changes or removes a row that was already in the table. */
  lemma {:induction false} MigratedKeepsExisting(users: Users, entries: seq<Option<(string, UserRecord)>>)
    ensures forall u :: u in users ==> u in Migrated(users, entries) && Migrated(users, entries)[u] == users[u]
  {
    if entries != [] {
      MigratedKeepsExisting(users, entries[..|entries| - 1]);
    }
  }

  /** After the import, a username has a row exactly when it had one before or some line defines it. */
  lemma {:induction false} MigratedKeys(users: Users, entries: seq<Option<(string, UserRecord)>>, username: string)
    ensures username in Migrated(users, entries) <==> username in users || exists i :: DefinesUser(entries, i, username)
  {
    if entries != [] {
      var n := |entries| - 1;
      var init := entries[..n];
      var before := Migrated(users, init);
      MigratedKeys(users, init, username);
      assert Migrated(users, entries) == ImportEntry(before, entries[n]);
      ImportEntryKeys(before, entries[n], username);
      assert entries[n].Some? && entries[n].value.0 == username <==> DefinesUser(entries, n, username);
      if exists i :: DefinesUser(entries, i, username) {
        var i :| DefinesUser(entries, i, username);
        if i < n {
          assert init[i] == entries[i];
          assert DefinesUser(init, i, username);
        }
      }
      if exists i :: DefinesUser(init, i, username) {
        var i :| DefinesUser(init, i, username);
        assert init[i] == entries[i];
        assert DefinesUser(entries, i, username);
      }
    }
  }

  /**
   * For a username not already in the table, the first line that defines it
   * decides its row: the hash and role are stored verbatim and later lines
   * with the same username are skipped.
   */
  lemma {:induction false} FirstLineWins(users: Users, entries: seq<Option<(string, UserRecord)>>, username: string, i: nat)
    requires username !in users
    requires DefinesUser(entries, i, username)
    requires forall j :: 0 <= j < i ==> !DefinesUser(entries, j, username)
    ensures username in Migrated(users, entries)
    ensures Migrated(users, entries)[username] == entries[i].value.1
  {
    var n := |entries| - 1;
    var init := entries[..n];
    var before := Migrated(users, init);
    assert Migrated(users, entries) == ImportEntry(before, entries[n]);
    if i == n {
      MigratedKeys(users, init, username);
      if username in before {
        var j :| DefinesUser(init, j, username);
        assert init[j] == entries[j];
        assert DefinesUser(entries, j, username);
      }
    } else {
      forall j | 0 <= j < i
        ensures !DefinesUser(init, j, username)
      {
        assert init[j] == entries[j];
        assert !DefinesUser(entries, j, username);
      }
      assert init[i] == entries[i];
      FirstLineWins(users, init, username, i);
    }
  }

  /** The users table, as held by the database connection of `DatabaseManager`. */
  class UserStore {
    var users: Users

    /** Opening the database; `CREATE TABLE IF NOT EXISTS` keeps the rows already stored. */
    constructor (stored: Users)
      ensures users == stored
    {
      users := stored;
    }

    /**
     * `register_user`: hashes the password with a fresh salt and inserts the
     * row; `false` when the username is taken, with the table unchanged.
     */
    method RegisterUser(username: string, password: string, salt: Salt, role: string := "user") returns (ok: bool)
      modifies this
      ensures ok <==> username !in old(users)
      ensures users == Insert(old(users), username, UserRecord(HashPw(password, salt), role))
    {
      var passwordHash := HashPw(password, salt);
      if username in users {
        ok := false;
      } else {
        users := users[username := UserRecord(passwordHash, role)];
        ok := true;
      }
    }

    /** `verify_user`. */
    method VerifyUser(username: string, password: string) returns (verdict: Option<bool>)
      ensures verdict == Verify(users, username, password)
    {
      verdict := Verify(users, username, password);
    }

    /** `get_user_role`; it reads the table and changes nothing. */
    method GetUserRole(username: string) returns (role: Option<string>)
      ensures role == RoleOf(users, username)
    {
      role := RoleOf(users, username);
    }

    /**
     * `migrate_users`: `file` holds the lines of users.txt, `None` when it
     * cannot be opened, in which case nothing is imported. Each line is
     * inserted unless it is blank, short, or names an existing user.
     */
    method MigrateUsers(file: Option<seq<string>>) returns (found: bool)
      modifies this
      ensures found == file.Some?
      ensures users == if file.Some? then Migrated(old(users), Parsed(file.value)) else old(users)
    {
      if file.None? {
        return false;
      }
      var lines := file.value;
      ghost var entries := Parsed(lines);
      for i := 0 to |lines|
        invariant users == Migrated(old(users), entries[..i])
      {
        MigratedStep(old(users), entries, i);
        var entry := ParseLine(lines[i]);
        if entry.Some? {
          users := Insert(users, entry.value.0, entry.value.1);
        }
      }
      assert entries[..|lines|] == entries;
      found := true;
    }
  }
}
