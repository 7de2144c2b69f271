# LockZilla credential vault — a Dafny model

LockZilla is a small Flask application that keeps per-user service passwords in SQLite. Its
`DatabaseManager` runs four kinds of statements on two tables, `users (id, username, password, email)`
and `passwords (user_id, service, password)`. Its `AppRoutes` handlers guard those statements with the
Flask session: login, logout, register, the index listing with search, add, update, delete, and a
JSON lookup endpoint for autofill. Before a secret is stored, `check_password_breach` asks the Pwned
Passwords range API about the secret's SHA-1 digest. It uses k-anonymity: only a 5-character prefix of
the digest is sent, and the suffix is matched locally against the `suffix:count` lines of the reply.

This project models that logic in memory:

- `records.dfy` (module `Records`) holds the row types and werkzeug's hasher as a pair of function
  values. `Sound` states the one property relied on: a hash accepts the password that made it. It
  also holds `Contains`, which reads `LIKE '%t%'` as substring containment.
- `store.dfy` (module `Store`) holds the selectors as functions over the tables and the effect of
  the UPDATE and DELETE statements as functions on the `passwords` rows. It also holds the
  autoincrement id, the lemmas about all of these, and a `Database` class whose four mutators
  reassign its `users` and `passwords` fields.
- `breach.dfy` (module `Breach`) holds the digest split and the range URL. It models
  Python's `str.splitlines` and the two-name unpacking of `line.split(':')`. It specifies the scan
  loop as a function, with lemmas saying when it finds a match and when it raises. The method
  `CheckPasswordBreach` runs that loop and is proved against the function.
- `routes.dfy` (module `Routes`) holds an `App` class whose state is the session and the store. Each
  handler is a method whose result is an abstract `Response`. `App.Valid()` says four things:
  usernames and ids are unique, every secret has a registered owner, and a signed-in session names a
  registered account. Every handler preserves it. A short client (`SignedInVault`, `Walkthrough`)
  goes through register, login, add, update and delete.

Inputs that are I/O or foreign code become parameters:
- `hasher` stands for werkzeug's `generate_password_hash` and `check_password_hash`.
- `salt` stands for werkzeug's random salt.
- `sha1Hex` stands for `hashlib.sha1(...).hexdigest()`.
- `fetch` stands for `requests.get`: it maps a URL to a reply or to a connection failure.
- The form and query values are plain arguments. The request method is a `Verb`.

Two behaviours of the code are kept as they are:
- `insert_password` (main.py:50-55) does no duplicate check, so an insert can add a second row for a
  known service (`InsertAlwaysAddsOne`).
- A reply other than 200 gives `False` (main.py:105-107). A connection error, or a line that does not
  unpack, raises. `add_password` then answers 500 and stores nothing (`AddPassword`).

## Model

| member | source | states |
|---|---|---|
| `Records.ContainsAt` | main.py:46-47 | the substring test used for `LIKE '%t%'` holds exactly when `t` starts at some position of `s` |
| `Store.GetUserByUsername` | main.py:17-21 | returns a row iff some user has that username; the row returned has that name and is the first such row in the table |
| `Store.ValidateUser` | main.py:30-35 | succeeds iff the first row with that username exists and its hash accepts the password; a success returns a row of the table with that name whose hash accepts |
| `Store.ValidateUserExact` | main.py:30-35 | with unique usernames, validation returns a row exactly when the row has the name and its hash accepts the password; otherwise the same `None` for an unknown name and a wrong password |
| `Store.RegisteredUserValidates` | main.py:23-35 | a user inserted with the hash of a password, under a new name, validates with that password and gets its own row back |
| `Store.GetPasswords` | main.py:37-41 | every listed row is a row of the table owned by the given user |
| `Store.GetPasswordsExact` | main.py:37-41 | the listing holds each row of the user exactly as many times as the table does, and no other row |
| `Store.GetPasswordsAppend` | main.py:37-41 | selecting by owner distributes over concatenation of tables |
| `Store.GetFilteredPasswords` | main.py:43-48 | every listed row is a table row of the user whose service contains the search term |
| `Store.GetFilteredPasswordsExact` | main.py:43-48 | the filtered listing holds each row of the user whose service contains the term as often as the table does, and nothing else |
| `Store.FilterEmptyTermIsAll` | main.py:114-118 | with an empty term the filtered query equals the unfiltered one |
| `Store.UpdateRows` | main.py:57-62 | keeps the length; each row with the key gets the new password; every other row is unchanged |
| `Store.UpdateAbsentIsNoop` | main.py:57-62 | an update that matches no row leaves the table identical and creates nothing |
| `Store.UpdateOthersUnchanged` | main.py:57-62 | an update leaves every other user's listing identical |
| `Store.DeleteRows` | main.py:64-69 | no remaining row has the key, and every remaining row was in the table |
| `Store.DeleteRowsExact` | main.py:64-69 | a delete removes every copy of rows with the key and keeps every other row with its multiplicity |
| `Store.DeleteAbsentIsNoop` | main.py:64-69 | deleting a key that has no row leaves the table identical |
| `Store.DeleteOthersUnchanged` | main.py:64-69 | a delete leaves every other user's listing identical |
| `Store.NextUserId` | main.py:24-27 | the id given to a new user is at least 1 and larger than every id in use, so it is fresh |
| `Store.InsertThenListed` | main.py:50-55 | after an insert, the owner's listing is the old listing plus the new row at the end; other users' listings are unchanged |
| `Store.InsertAlwaysAddsOne` | main.py:50-55 | an insert never deduplicates: the owner's listing and the row's count both grow by exactly one |
| `Store.AddUpdateDeleteRestores` | main.py:50-69 | adding a secret for a fresh key, updating it and deleting it gives back the original table |
| `Store.Database.InsertUser` | main.py:23-28 | appends one user row holding the hash of the password (not the password) under a fresh id; secrets untouched |
| `Store.Database.InsertPassword` | main.py:50-55 | appends exactly the row `(user_id, service, password)`; all existing rows and users unchanged |
| `Store.Database.UpdatePassword` | main.py:57-62 | the table becomes the UPDATE of the old table; users unchanged |
| `Store.Database.DeletePassword` | main.py:64-69 | the table becomes the DELETE of the old table; users unchanged |
| `Breach.ToUpper` | main.py:90 | upper-casing keeps the length, turns each letter `a`–`z` into its capital `A`–`Z`, leaves no lower-case ASCII letter, and changes no other character |
| `Breach.Prefix` | main.py:91 | the prefix is a prefix of the digest, 5 characters long when the digest has at least 5 |
| `Breach.Suffix` | main.py:92 | prefix followed by suffix is the digest |
| `Breach.RangeUrl` | main.py:93 | the URL is the range endpoint followed by the prefix and nothing else |
| `Breach.SamePrefixSameRequest` | main.py:90-94 | two passwords whose digests share the first five characters send the same request, which carries exactly five digest characters |
| `Breach.LineEnd` | main.py:97 | the first line ends at the first line boundary or at the end of the text |
| `Breach.SplitLines` | main.py:97 | no line contains a line boundary; the empty text has no lines and any other text has at least one |
| `Breach.SplitOneLine` | main.py:97 | a non-empty text without a line boundary splits into exactly itself |
| `Breach.SplitAtBoundary` | main.py:97 | a line followed by `\r\n`, or by any single boundary character that is not a `\r` before `\n`, splits into that line followed by the lines of the rest |
| `Breach.SplitCrlfText` | main.py:97 | splitting a body of `\r\n`-terminated records gives back exactly those records |
| `Breach.Unpack` | main.py:99 | unpacking succeeds iff the line has exactly one colon, and then the parts rejoined around `:` give the line back |
| `Breach.ScanTrueIff` | main.py:98-102 | the scan returns true iff some line's part before `:` equals the suffix and every earlier line unpacks |
| `Breach.ScanRaisesIff` | main.py:98-99 | the scan raises only `ValueError`, and does so iff some line fails to unpack before any line has matched |
| `Breach.ScanWellFormed` | main.py:96-104 | when every line unpacks, the result is true exactly when some line's suffix equals the local one |
| `Breach.VerdictWithoutRecords` | main.py:96-107 | a reply other than 200, or a 200 reply with an empty body, gives `False` |
| `Breach.VerdictOnCrlfBody` | main.py:96-104 | a 200 reply in the range API's format reports exposure iff one of its records carries the suffix |
| `Breach.CheckPasswordBreach` | main.py:89-107 | the loop's result is the verdict for the reply to the prefix's range URL, judged against the digest's suffix |
| `Routes.FirstForService` | main.py:190-191 | returns a row iff some row has the service; then the first such row |
| `Routes.App.Index` | main.py:109-120 | no session redirects to login; otherwise the page shows exactly the user's rows whose service contains the term, the term being empty or not, and only rows of that user |
| `Routes.App.Login` | main.py:122-138 | an existing session redirects unchanged; a POST binds `(username, id)` only when validation succeeds, and otherwise leaves the session empty and renders the form |
| `Routes.App.Logout` | main.py:140-143 | the session is cleared completely and the response redirects to login |
| `Routes.App.Register` | main.py:145-167 | an existing session, a GET, differing passwords or a taken username add no user; otherwise exactly one user is added with the hashed password, and that user then validates with the password |
| `Routes.App.AddPassword` | main.py:169-183 | no session redirects; a POST appends the secret whatever the breach verdict, unless the check raised, in which case the answer is 500 and nothing is stored |
| `Routes.App.UpdatePassword` | main.py:185-199 | no session redirects; GET renders the user's first entry for the service; POST applies the UPDATE for the user's key only |
| `Routes.App.DeletePassword` | main.py:201-208 | no session redirects; otherwise applies the DELETE for the user's key only |
| `Routes.App.GetPassword` | main.py:211-234 | 401 without session, 400 without a non-empty domain, 404 when no row of the user matches; otherwise the list of `{service, password}` of the matching rows, in order, each from a row of that user |
| `Routes.SignedInVault` | main.py:122-165 | registering `alice` into an empty vault and logging in with the same password gives a session for id 1 |

## Left out

- `sender.py` (`EmailSender.send_password_email`, one outbound HTTP POST) is not part of this model.
- SQLite connection handling (`get_db_connection`, WAL mode, the lock timeout, context managers) is
  left out. So is any concurrency: the model is single-threaded and each statement is atomic.
- werkzeug's hash functions and SHA-1 are parameters (`hasher`, `sha1Hex`). Their algorithms are not
  modelled. Only `Sound` (a hash accepts the password that produced it) is assumed, and only where
  a lemma states it.
- The network call `requests.get` is the parameter `fetch`. Timeouts and retries are not modelled,
  and neither is exception text beyond the `ValueError`/`ConnectionError` split. The `count` field of
  a matching line is read but, like every `print`, not reported.
- Flask is left out: template rendering, `flash` messages, `url_for`, the exact `jsonify` encoding,
  the secret key and `run`. Pages, redirects and JSON replies are abstract `Response` values.
- Form parsing is left out: a missing form field (Flask's 400 for `request.form[...]`) is not
  modelled, and neither is the 405 that Flask answers to a GET on the delete route.
- `Records.ContainsAt`: SQL `LIKE` is case-insensitive for ASCII letters and treats `%` and `_` in
  the term as wildcards. `Contains` is plain, case-sensitive substring containment.
- `Breach.ToUpper`: only the ASCII letters `a`–`z` are upper-cased. A hex digest contains no other
  letters.
- Row order: SQL without `ORDER BY` promises no order. The model returns rows in table order.
  `InsertThenListed` and the order of `GetPassword`'s entries rely on that choice; the multiset
  lemmas do not.
- The user id is `max(id) + 1`, and `1` for an empty table. That is SQLite's rowid choice when no
  user is ever deleted, and the code has no path that deletes users.
- The session is treated as trusted state that only `login` and `logout` write. In Flask it is a
  client-side cookie signed with the fixed key at main.py:76, so a request can carry any
  `username`/`user_id`; `add_password` would then store a row for an id no account has. The
  `SessionBound` and `OwnersRegistered` parts of `App.Valid` rest on that trust, and the handlers'
  `requires Valid()` leave forged sessions out.
- The schema is not in the code. The model assumes no database-level UNIQUE constraint. Username
  uniqueness is an invariant of `App`, kept by `register`'s check.
