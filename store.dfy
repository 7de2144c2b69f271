/**
 * The `DatabaseManager`: the `users` and `passwords` tables as sequences of rows, the selectors
 * as functions over them, and the four mutating statements as methods of a `Database` object.
 */
module Store {
  import opened Records

  // ---------------------------------------------------------------------------------------------
  // Table invariants

  ghost predicate UniqueUsernames(users: seq<UserRow>)
  {
    forall i, j :: 0 <= i < j < |users| ==> users[i].username != users[j].username
  }

  ghost predicate UniqueIds(users: seq<UserRow>)
  {
    forall i, j :: 0 <= i < j < |users| ==> users[i].id != users[j].id
  }

  ghost predicate IsUserId(users: seq<UserRow>, id: nat)
  {
    exists u :: u in users && u.id == id
  }

  /** Every stored secret belongs to a registered account. */
  ghost predicate OwnersRegistered(rows: seq<PasswordRow>, users: seq<UserRow>)
  {
    forall p :: p in rows ==> IsUserId(users, p.userId)
  }

  // ---------------------------------------------------------------------------------------------
  // Selectors

  /** `SELECT * FROM users WHERE username = ?` followed by `fetchone()`: the first matching row. */
  function GetUserByUsername(users: seq<UserRow>, username: string): (r: Option<UserRow>)
    ensures r.Some? <==> exists i :: 0 <= i < |users| && users[i].username == username
    ensures r.Some? ==> exists i :: 0 <= i < |users| && users[i] == r.value && r.value.username == username &&
                                    forall j :: 0 <= j < i ==> users[j].username != username
  {
    if users == [] then None
    else if users[0].username == username then Some(users[0])
    else
      var r := GetUserByUsername(users[1..], username);
      assert forall i :: 0 <= i < |users| - 1 ==> users[1..][i] == users[i + 1];
      r
  }

  /**
   * The account row when the username exists and the stored hash accepts the password; `None`
   * otherwise, whether the name is unknown or the password wrong.
   */
  function ValidateUser(users: seq<UserRow>, username: string, password: string, hasher: Hasher): (r: Option<UserRow>)
    ensures r.Some? ==> r.value in users && r.value.username == username && hasher.check(r.value.passwordHash, password)
    ensures r.Some? <==> exists i :: 0 <= i < |users| && users[i].username == username &&
                                     hasher.check(users[i].passwordHash, password) &&
                                     forall j :: 0 <= j < i ==> users[j].username != username
  {
    match GetUserByUsername(users, username)
    case None => None
    case Some(u) => if hasher.check(u.passwordHash, password) then Some(u) else None
  }

  /** `SELECT * FROM passwords WHERE user_id = ?`, in table order. */
  function GetPasswords(rows: seq<PasswordRow>, userId: nat): (r: seq<PasswordRow>)
    ensures |r| <= |rows|
    ensures forall i :: 0 <= i < |r| ==> r[i].userId == userId && r[i] in rows
  {
    if rows == [] then []
    else (if rows[0].userId == userId then [rows[0]] else []) + GetPasswords(rows[1..], userId)
  }

  /** The listing holds every row of the owner, as often as the table does, and nothing else. */
  lemma {:induction false} GetPasswordsExact(rows: seq<PasswordRow>, userId: nat, p: PasswordRow)
    ensures multiset(GetPasswords(rows, userId))[p] == if p.userId == userId then multiset(rows)[p] else 0
  {
    if rows != [] {
      assert rows == [rows[0]] + rows[1..];
      GetPasswordsExact(rows[1..], userId, p);
    }
  }

  /** `SELECT * FROM passwords WHERE user_id = ? AND service LIKE '%term%'`, in table order. */
  function GetFilteredPasswords(rows: seq<PasswordRow>, userId: nat, term: string): (r: seq<PasswordRow>)
    ensures |r| <= |rows|
    ensures forall i :: 0 <= i < |r| ==> r[i].userId == userId && Contains(r[i].service, term) && r[i] in rows
  {
    if rows == [] then []
    else
      var keep := rows[0].userId == userId && Contains(rows[0].service, term);
      (if keep then [rows[0]] else []) + GetFilteredPasswords(rows[1..], userId, term)
  }

  /** The filtered listing holds every row of the owner whose service contains the term, and nothing else. */
  lemma {:induction false} GetFilteredPasswordsExact(rows: seq<PasswordRow>, userId: nat, term: string, p: PasswordRow)
    ensures multiset(GetFilteredPasswords(rows, userId, term))[p] ==
            if p.userId == userId && Contains(p.service, term) then multiset(rows)[p] else 0
  {
    if rows != [] {
      assert rows == [rows[0]] + rows[1..];
      GetFilteredPasswordsExact(rows[1..], userId, term, p);
    }
  }

  /** With an empty search term the filtered query returns exactly what the unfiltered one does. */
  lemma {:induction false} FilterEmptyTermIsAll(rows: seq<PasswordRow>, userId: nat)
    ensures GetFilteredPasswords(rows, userId, "") == GetPasswords(rows, userId)
  {
    if rows != [] {
      FilterEmptyTermIsAll(rows[1..], userId);
    }
  }

  // ---------------------------------------------------------------------------------------------
  // What the mutating statements do to the `passwords` table

  predicate KeyMatches(p: PasswordRow, userId: nat, service: string)
  {
    p.userId == userId && p.service == service
  }

  /** `UPDATE passwords SET password = ? WHERE user_id = ? AND service = ?`. */
  function UpdateRows(rows: seq<PasswordRow>, userId: nat, service: string, password: string): (r: seq<PasswordRow>)
    ensures |r| == |rows|
    ensures forall i :: 0 <= i < |rows| ==>
              r[i] == if KeyMatches(rows[i], userId, service) then rows[i].(password := password) else rows[i]
  {
    if rows == [] then []
    else
      var head := if KeyMatches(rows[0], userId, service) then rows[0].(password := password) else rows[0];
      [head] + UpdateRows(rows[1..], userId, service, password)
  }

  /** `DELETE FROM passwords WHERE user_id = ? AND service = ?`. */
  function DeleteRows(rows: seq<PasswordRow>, userId: nat, service: string): (r: seq<PasswordRow>)
    ensures |r| <= |rows|
    ensures forall i :: 0 <= i < |r| ==> !KeyMatches(r[i], userId, service) && r[i] in rows
  {
    if rows == [] then []
    else (if KeyMatches(rows[0], userId, service) then [] else [rows[0]]) + DeleteRows(rows[1..], userId, service)
  }

  /** A delete removes every copy of every row with the key and keeps every other row as often as before. */
  lemma {:induction false} DeleteRowsExact(rows: seq<PasswordRow>, userId: nat, service: string, p: PasswordRow)
    ensures multiset(DeleteRows(rows, userId, service))[p] == if KeyMatches(p, userId, service) then 0 else multiset(rows)[p]
  {
    if rows != [] {
      assert rows == [rows[0]] + rows[1..];
      DeleteRowsExact(rows[1..], userId, service, p);
    }
  }

  /** The id SQLite assigns to the next user: one more than the largest id in use (1 for an empty table). */
  function NextUserId(users: seq<UserRow>): (id: nat)
    ensures id >= 1
    ensures forall u :: u in users ==> u.id < id
  {
    if users == [] then 1
    else
      var rest := NextUserId(users[1..]);
      assert forall u :: u in users ==> u == users[0] || u in users[1..];
      if users[0].id + 1 > rest then users[0].id + 1 else rest
  }

  // ---------------------------------------------------------------------------------------------
  // Properties of the statements

  /** Selecting by owner distributes over concatenation of tables. */
  lemma {:induction false} GetPasswordsAppend(a: seq<PasswordRow>, b: seq<PasswordRow>, userId: nat)
    ensures GetPasswords(a + b, userId) == GetPasswords(a, userId) + GetPasswords(b, userId)
  {
    if a != [] {
      var head := if a[0].userId == userId then [a[0]] else [];
      assert (a + b)[0] == a[0];
      assert (a + b)[1..] == a[1..] + b;
      GetPasswordsAppend(a[1..], b, userId);
      calc {
        GetPasswords(a + b, userId);
        head + GetPasswords(a[1..] + b, userId);
        head + (GetPasswords(a[1..], userId) + GetPasswords(b, userId));
        (head + GetPasswords(a[1..], userId)) + GetPasswords(b, userId);
      }
    } else {
      assert a + b == b;
    }
  }

  /** An insert adds the new row to its owner's listing, at the end, and no other owner's listing changes. */
  lemma {:induction false} InsertThenListed(rows: seq<PasswordRow>, p: PasswordRow, userId: nat)
    ensures GetPasswords(rows + [p], userId) == GetPasswords(rows, userId) + (if p.userId == userId then [p] else [])
  {
    if rows == [] {
      assert rows + [p] == [p];
    } else {
      assert (rows + [p])[1..] == rows[1..] + [p];
      InsertThenListed(rows[1..], p, userId);
    }
  }

  /** Inserting never deduplicates: the owner's listing grows by exactly one row, even for a known service. */
  lemma InsertAlwaysAddsOne(rows: seq<PasswordRow>, p: PasswordRow)
    ensures |GetPasswords(rows + [p], p.userId)| == |GetPasswords(rows, p.userId)| + 1
    ensures multiset(rows + [p])[p] == multiset(rows)[p] + 1
  {
    InsertThenListed(rows, p, p.userId);
  }

  /** An update that matches no row changes nothing and creates nothing. */
  lemma UpdateAbsentIsNoop(rows: seq<PasswordRow>, userId: nat, service: string, password: string)
    requires forall i :: 0 <= i < |rows| ==> !KeyMatches(rows[i], userId, service)
    ensures UpdateRows(rows, userId, service, password) == rows
  {
  }

  /** An update leaves every other user's listing identical. */
  lemma {:induction false} UpdateOthersUnchanged(rows: seq<PasswordRow>, userId: nat, service: string, password: string, other: nat)
    requires other != userId
    ensures GetPasswords(UpdateRows(rows, userId, service, password), other) == GetPasswords(rows, other)
  {
    if rows != [] {
      var r := UpdateRows(rows, userId, service, password);
      assert r[1..] == UpdateRows(rows[1..], userId, service, password);
      UpdateOthersUnchanged(rows[1..], userId, service, password, other);
    }
  }

  /** A delete of a key that has no row changes nothing. */
  lemma {:induction false} DeleteAbsentIsNoop(rows: seq<PasswordRow>, userId: nat, service: string)
    requires forall i :: 0 <= i < |rows| ==> !KeyMatches(rows[i], userId, service)
    ensures DeleteRows(rows, userId, service) == rows
  {
    if rows != [] {
      DeleteAbsentIsNoop(rows[1..], userId, service);
    }
  }

  /** A delete leaves every other user's listing identical. */
  lemma {:induction false} DeleteOthersUnchanged(rows: seq<PasswordRow>, userId: nat, service: string, other: nat)
    requires other != userId
    ensures GetPasswords(DeleteRows(rows, userId, service), other) == GetPasswords(rows, other)
  {
    if rows != [] {
      var head := if KeyMatches(rows[0], userId, service) then [] else [rows[0]];
      var rest := DeleteRows(rows[1..], userId, service);
      assert DeleteRows(rows, userId, service) == head + rest;
      GetPasswordsAppend(head, rest, other);
      DeleteOthersUnchanged(rows[1..], userId, service, other);
    }
  }

  lemma {:induction false} DeleteAppend(a: seq<PasswordRow>, b: seq<PasswordRow>, userId: nat, service: string)
    ensures DeleteRows(a + b, userId, service) == DeleteRows(a, userId, service) + DeleteRows(b, userId, service)
  {
    if a != [] {
      var head := if KeyMatches(a[0], userId, service) then [] else [a[0]];
      assert (a + b)[0] == a[0];
      assert (a + b)[1..] == a[1..] + b;
      DeleteAppend(a[1..], b, userId, service);
      calc {
        DeleteRows(a + b, userId, service);
        head + DeleteRows(a[1..] + b, userId, service);
        head + (DeleteRows(a[1..], userId, service) + DeleteRows(b, userId, service));
        (head + DeleteRows(a[1..], userId, service)) + DeleteRows(b, userId, service);
      }
    } else {
      assert a + b == b;
    }
  }

  /**
   * Adding a secret for a fresh key, updating it and deleting it leaves the table as it was
   * (the add / update / delete scenario on one service).
   */
  lemma AddUpdateDeleteRestores(rows: seq<PasswordRow>, userId: nat, service: string, first: string, second: string)
    requires forall i :: 0 <= i < |rows| ==> !KeyMatches(rows[i], userId, service)
    ensures DeleteRows(UpdateRows(rows + [PasswordRow(userId, service, first)], userId, service, second), userId, service) == rows
  {
    var added := rows + [PasswordRow(userId, service, first)];
    var updated := UpdateRows(added, userId, service, second);
    assert updated == rows + [PasswordRow(userId, service, second)];
    DeleteAppend(rows, [PasswordRow(userId, service, second)], userId, service);
    DeleteAbsentIsNoop(rows, userId, service);
  }

  /** With unique usernames, validation succeeds for a row exactly when it has that name and its hash accepts. */
  lemma ValidateUserExact(users: seq<UserRow>, username: string, password: string, hasher: Hasher, u: UserRow)
    requires UniqueUsernames(users)
    ensures ValidateUser(users, username, password, hasher) == Some(u) <==>
            u in users && u.username == username && hasher.check(u.passwordHash, password)
  {
    if u in users && u.username == username && hasher.check(u.passwordHash, password) {
      var k :| 0 <= k < |users| && users[k] == u;
      var r := ValidateUser(users, username, password, hasher);
      assert r.Some? by {
        forall j | 0 <= j < k ensures users[j].username != username { }
      }
    }
  }

  /** A user appended with the hash of `password` validates with `password` and gets its own row back. */
  lemma RegisteredUserValidates(users: seq<UserRow>, row: UserRow, password: string, hasher: Hasher, salt: nat)
    requires Sound(hasher)
    requires forall i :: 0 <= i < |users| ==> users[i].username != row.username
    requires row.passwordHash == hasher.generate(salt, password)
    ensures ValidateUser(users + [row], row.username, password, hasher) == Some(row)
  {
    var all := users + [row];
    assert all[|users|] == row;
    var r := ValidateUser(all, row.username, password, hasher);
    assert r.Some?;
    var i :| 0 <= i < |all| && all[i] == r.value;
    assert i == |users|;
  }

  // ---------------------------------------------------------------------------------------------
  // The store as a mutable object

  class Database {
    var users: seq<UserRow>
    var passwords: seq<PasswordRow>

    constructor ()
      ensures users == [] && passwords == []
    {
      users := [];
      passwords := [];
    }

    /** `insert_user`: one new row carrying the hash of the password under a fresh id. */
    method InsertUser(username: string, password: string, email: string, hasher: Hasher, salt: nat)
      modifies this
      ensures passwords == old(passwords)
      ensures users == old(users) + [UserRow(NextUserId(old(users)), username, hasher.generate(salt, password), email)]
      ensures forall u :: u in old(users) ==> u.id != users[|users| - 1].id
    {
      users := users + [UserRow(NextUserId(users), username, hasher.generate(salt, password), email)];
    }

    /** `insert_password`: appends exactly one row, with no duplicate check. */
    method InsertPassword(userId: nat, service: string, password: string)
      modifies this
      ensures users == old(users)
      ensures passwords == old(passwords) + [PasswordRow(userId, service, password)]
    {
      passwords := passwords + [PasswordRow(userId, service, password)];
    }

    /** `update_password`: rewrites the secret of every row with the key; a missing key is a no-op. */
    method UpdatePassword(userId: nat, service: string, password: string)
      modifies this
      ensures users == old(users)
      ensures passwords == UpdateRows(old(passwords), userId, service, password)
    {
      passwords := UpdateRows(passwords, userId, service, password);
    }

    /** `delete_password`: removes exactly the rows with the key. */
    method DeletePassword(userId: nat, service: string)
      modifies this
      ensures users == old(users)
      ensures passwords == DeleteRows(old(passwords), userId, service)
    {
      passwords := DeleteRows(passwords, userId, service);
    }
  }
}
