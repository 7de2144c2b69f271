/**
 * `AppRoutes`: the request handlers as methods of an `App` object whose state is the Flask session
 * and the store. Handler outcomes are abstract responses (redirect, rendered page, JSON, or the
 * 500 error Flask returns for an uncaught exception).
 */
module Routes {
  import opened Records
  import opened Store
  import opened Breach

  /** The Flask session: empty, or holding `username` and `user_id`. */
  datatype Session = Anonymous | SignedIn(username: string, userId: nat)

  datatype Verb = Get | Post

  /** The endpoints handlers redirect to. */
  datatype Endpoint = IndexView | LoginView | RegisterView

  /** The templates handlers render, with the values they pass to them. */
  datatype Page =
    | IndexPage(passwords: seq<PasswordRow>, username: string, searchTerm: string)
    | LoginPage
    | RegisterPage
    | AddPasswordPage
    | UpdatePasswordPage(servicePassword: Option<PasswordRow>)

  /** One `{"service": ..., "password": ...}` object of the lookup endpoint. */
  datatype Entry = Entry(service: string, password: string)

  datatype Json = ErrorMessage(error: string) | Entries(entries: seq<Entry>)

  datatype Response =
    | Redirect(to: Endpoint)
    | Render(page: Page)
    | JsonReply(status: int, body: Json)
    | InternalServerError

  /** A signed-in session names an existing account by both its username and its id. */
  ghost predicate SessionBound(session: Session, users: seq<UserRow>)
  {
    session.SignedIn? ==> exists u :: u in users && u.username == session.username && u.id == session.userId
  }

  /** `next((pw for pw in rows if pw['service'] == service), None)`: the first row for the service. */
  function FirstForService(rows: seq<PasswordRow>, service: string): (r: Option<PasswordRow>)
    ensures r.Some? <==> exists i :: 0 <= i < |rows| && rows[i].service == service
    ensures r.Some? ==> exists i :: 0 <= i < |rows| && rows[i] == r.value && r.value.service == service &&
                                    forall j :: 0 <= j < i ==> rows[j].service != service
  {
    if rows == [] then None
    else if rows[0].service == service then Some(rows[0])
    else
      var r := FirstForService(rows[1..], service);
      assert forall i :: 0 <= i < |rows| - 1 ==> rows[1..][i] == rows[i + 1];
      r
  }

  class App {
    const db: Database
    var session: Session

    /**
     * Usernames and ids identify accounts, every stored secret has a registered owner, and the
     * session refers to a registered account.
     */
    ghost predicate Valid()
      reads this, db
    {
      UniqueUsernames(db.users) && UniqueIds(db.users) &&
      OwnersRegistered(db.passwords, db.users) && SessionBound(session, db.users)
    }

    constructor ()
      ensures Valid() && fresh(db)
      ensures session == Anonymous && db.users == [] && db.passwords == []
    {
      db := new Database();
      session := Anonymous;
    }

    /** `index`: the signed-in user's secrets, filtered by the search term when one is given. */
    method Index(searchTerm: string) returns (r: Response)
      ensures session.Anonymous? ==> r == Redirect(LoginView)
      ensures session.SignedIn? ==>
                r == Render(IndexPage(GetFilteredPasswords(db.passwords, session.userId, searchTerm), session.username, searchTerm))
      ensures r.Render? ==> forall p :: p in r.page.passwords ==> p in db.passwords && p.userId == session.userId
    {
      if session.Anonymous? {
        return Redirect(LoginView);
      }
      var userId := session.userId;
      var passwords;
      if searchTerm != "" {
        passwords := GetFilteredPasswords(db.passwords, userId, searchTerm);
      } else {
        passwords := GetPasswords(db.passwords, userId);
        FilterEmptyTermIsAll(db.passwords, userId);
      }
      return Render(IndexPage(passwords, session.username, searchTerm));
    }

    /** `login`: binds the session only when the credentials validate. */
    method Login(verb: Verb, username: string, password: string, hasher: Hasher) returns (r: Response)
      requires Valid()
      modifies this
      ensures Valid()
      ensures old(session).SignedIn? ==> r == Redirect(IndexView) && session == old(session)
      ensures old(session).Anonymous? && verb == Get ==> r == Render(LoginPage) && session == Anonymous
      ensures old(session).Anonymous? && verb == Post ==>
                match ValidateUser(db.users, username, password, hasher)
                case Some(u) => session == SignedIn(username, u.id) && r == Redirect(IndexView)
                case None => session == Anonymous && r == Render(LoginPage)
    {
      if session.SignedIn? {
        return Redirect(IndexView);
      }
      if verb == Post {
        var user := ValidateUser(db.users, username, password, hasher);
        if user.Some? {
          session := SignedIn(username, user.value.id);
          return Redirect(IndexView);
        }
      }
      return Render(LoginPage);
    }

    /** `logout`: clears the session entirely. */
    method Logout() returns (r: Response)
      requires Valid()
      modifies this
      ensures Valid()
      ensures session == Anonymous && r == Redirect(LoginView)
    {
      session := Anonymous;
      return Redirect(LoginView);
    }

    /**
     * `register`: refuses mismatched passwords and taken usernames; otherwise stores one account with
     * the hash of the password, which then validates with that password.
     */
    method Register(verb: Verb, username: string, password: string, confirmPassword: string, email: string,
                    hasher: Hasher, salt: nat) returns (r: Response)
      requires Valid()
      modifies db
      ensures Valid()
      ensures db.passwords == old(db.passwords)
      ensures session.SignedIn? ==> r == Redirect(IndexView) && db.users == old(db.users)
      ensures session.Anonymous? && verb == Get ==> r == Render(RegisterPage) && db.users == old(db.users)
      ensures session.Anonymous? && verb == Post && password != confirmPassword ==>
                r == Redirect(RegisterView) && db.users == old(db.users)
      ensures session.Anonymous? && verb == Post && password == confirmPassword &&
              GetUserByUsername(old(db.users), username).Some? ==>
                r == Redirect(RegisterView) && db.users == old(db.users)
      ensures session.Anonymous? && verb == Post && password == confirmPassword &&
              GetUserByUsername(old(db.users), username).None? ==>
                var row := UserRow(NextUserId(old(db.users)), username, hasher.generate(salt, password), email);
                r == Redirect(LoginView) && db.users == old(db.users) + [row] &&
                (Sound(hasher) ==> ValidateUser(db.users, username, password, hasher) == Some(row))
    {
      if session.SignedIn? {
        return Redirect(IndexView);
      }
      if verb == Get {
        return Render(RegisterPage);
      }
      if password != confirmPassword {
        return Redirect(RegisterView);
      }
      if GetUserByUsername(db.users, username).Some? {
        return Redirect(RegisterView);
      }
      ghost var before := db.users;
      db.InsertUser(username, password, email, hasher, salt);
      ghost var row := UserRow(NextUserId(before), username, hasher.generate(salt, password), email);
      assert db.users == before + [row];
      assert forall u :: u in before ==> u in db.users;
      if Sound(hasher) {
        RegisteredUserValidates(before, row, password, hasher, salt);
      }
      return Redirect(LoginView);
    }

    /**
     * `add_password`: runs the breach check, whose verdict is only advisory, and appends the secret;
     * an exception escaping the check aborts the request before anything is stored.
     */
    method AddPassword(verb: Verb, service: string, password: string,
                       sha1Hex: string -> string, fetch: string -> HttpReply) returns (r: Response)
      requires Valid()
      modifies db
      ensures Valid()
      ensures db.users == old(db.users)
      ensures session.Anonymous? ==> r == Redirect(LoginView) && db.passwords == old(db.passwords)
      ensures session.SignedIn? && verb == Get ==> r == Render(AddPasswordPage) && db.passwords == old(db.passwords)
      ensures session.SignedIn? && verb == Post ==>
                var digest := Digest(sha1Hex, password);
                if Verdict(fetch(RangeUrl(Prefix(digest))), Suffix(digest)).Raised? then
                  r == InternalServerError && db.passwords == old(db.passwords)
                else
                  r == Redirect(IndexView) && db.passwords == old(db.passwords) + [PasswordRow(session.userId, service, password)]
    {
      if session.Anonymous? {
        return Redirect(LoginView);
      }
      if verb == Get {
        return Render(AddPasswordPage);
      }
      var userId := session.userId;
      var breached := CheckPasswordBreach(password, sha1Hex, fetch);
      if breached.Raised? {
        return InternalServerError;
      }
      db.InsertPassword(userId, service, password);
      return Redirect(IndexView);
    }

    /** `update_password`: shows the stored entry for the service, or rewrites its secret on POST. */
    method UpdatePassword(verb: Verb, service: string, password: string) returns (r: Response)
      requires Valid()
      modifies db
      ensures Valid()
      ensures db.users == old(db.users)
      ensures session.Anonymous? ==> r == Redirect(LoginView) && db.passwords == old(db.passwords)
      ensures session.SignedIn? && verb == Get ==>
                r == Render(UpdatePasswordPage(FirstForService(GetPasswords(db.passwords, session.userId), service))) &&
                db.passwords == old(db.passwords)
      ensures session.SignedIn? && verb == Post ==>
                r == Redirect(IndexView) && db.passwords == UpdateRows(old(db.passwords), session.userId, service, password)
    {
      if session.Anonymous? {
        return Redirect(LoginView);
      }
      var userId := session.userId;
      var existingPassword := GetPasswords(db.passwords, userId);
      var servicePassword := FirstForService(existingPassword, service);
      if verb == Post {
        db.UpdatePassword(userId, service, password);
        assert forall p :: p in db.passwords ==> exists q :: q in old(db.passwords) && q.userId == p.userId by {
          forall p | p in db.passwords ensures exists q :: q in old(db.passwords) && q.userId == p.userId {
            var i :| 0 <= i < |db.passwords| && db.passwords[i] == p;
            assert old(db.passwords)[i] in old(db.passwords);
          }
        }
        return Redirect(IndexView);
      }
      return Render(UpdatePasswordPage(servicePassword));
    }

    /** `delete_password`: removes the signed-in user's rows for the service. */
    method DeletePassword(service: string) returns (r: Response)
      requires Valid()
      modifies db
      ensures Valid()
      ensures db.users == old(db.users)
      ensures session.Anonymous? ==> r == Redirect(LoginView) && db.passwords == old(db.passwords)
      ensures session.SignedIn? ==>
                r == Redirect(IndexView) && db.passwords == DeleteRows(old(db.passwords), session.userId, service)
    {
      if session.Anonymous? {
        return Redirect(LoginView);
      }
      var userId := session.userId;
      db.DeletePassword(userId, service);
      return Redirect(IndexView);
    }

    /**
     * `get_password`: 401 without a session, 400 without a domain, 404 when none of the user's
     * services contains the domain, and otherwise the matching services with their secrets.
     */
    method GetPassword(domain: Option<string>) returns (r: Response)
      ensures session.Anonymous? ==> r == JsonReply(401, ErrorMessage("User not logged in"))
      ensures session.SignedIn? && (domain.None? || domain.value == "") ==>
                r == JsonReply(400, ErrorMessage("Domain parameter missing"))
      ensures session.SignedIn? && domain.Some? && domain.value != "" ==>
                var found := GetFilteredPasswords(db.passwords, session.userId, domain.value);
                (found == [] ==> r == JsonReply(404, ErrorMessage("No passwords found for this domain"))) &&
                (found != [] ==> r.JsonReply? && r.status == 200 && r.body.Entries? &&
                                 |r.body.entries| == |found| &&
                                 forall i :: 0 <= i < |found| ==>
                                   r.body.entries[i] == Entry(found[i].service, found[i].password))
      ensures r.JsonReply? && r.body.Entries? ==>
                forall e :: e in r.body.entries ==>
                  exists p :: p in db.passwords && p.userId == session.userId && e == Entry(p.service, p.password) &&
                              Contains(p.service, domain.value)
    {
      if session.Anonymous? {
        return JsonReply(401, ErrorMessage("User not logged in"));
      }
      var userId := session.userId;
      if domain.None? || domain.value == "" {
        return JsonReply(400, ErrorMessage("Domain parameter missing"));
      }
      var passwords := GetFilteredPasswords(db.passwords, userId, domain.value);
      if passwords != [] {
        var passwordData: seq<Entry> := [];
        var i := 0;
        while i < |passwords|
          invariant 0 <= i <= |passwords|
          invariant |passwordData| == i
          invariant forall k :: 0 <= k < i ==> passwordData[k] == Entry(passwords[k].service, passwords[k].password)
        {
          passwordData := passwordData + [Entry(passwords[i].service, passwords[i].password)];
          i := i + 1;
        }
        return JsonReply(200, Entries(passwordData));
      } else {
        return JsonReply(404, ErrorMessage("No passwords found for this domain"));
      }
    }
  }

  /** A client of the handlers: a fresh vault where `alice` has registered and signed in. */
  method SignedInVault(hasher: Hasher, salt: nat) returns (app: App)
    requires Sound(hasher)
    ensures fresh(app) && fresh(app.db) && app.Valid()
    ensures app.session == SignedIn("alice", 1) && app.db.passwords == []
  {
    app := new App();
    assert GetUserByUsername([], "alice") == None;
    var r := app.Register(Post, "alice", "pw1", "pw1", "a@x.com", hasher, salt);
    assert app.db.users == [UserRow(1, "alice", hasher.generate(salt, "pw1"), "a@x.com")];
    r := app.Login(Post, "alice", "pw1", hasher);
  }

  /**
   * Continuing that client: add a secret for `github` (with the range service answering 503),
   * update it and delete it. The index page shows the entry, then the updated entry, then nothing.
   */
  method Walkthrough(hasher: Hasher, salt: nat)
    requires Sound(hasher)
  {
    var app := SignedInVault(hasher, salt);
    var unavailable := (url: string) => Reply(503, "");
    var github := PasswordRow(1, "github", "s3cr3t");
    var r := app.AddPassword(Post, "github", "s3cr3t", (s: string) => s, unavailable);
    assert app.db.passwords == [github];
    var shown := app.Index("");
    assert shown.page.passwords == [github] by {
      FilterEmptyTermIsAll([github], 1);
      assert [github][1..] == [];
    }

    var updated := PasswordRow(1, "github", "s3cr3t2");
    r := app.UpdatePassword(Post, "github", "s3cr3t2");
    assert app.db.passwords == [updated];
    shown := app.Index("");
    assert shown.page.passwords == [updated] by {
      FilterEmptyTermIsAll([updated], 1);
      assert [updated][1..] == [];
    }

    r := app.DeletePassword("github");
    assert app.db.passwords == [] by {
      assert [updated][1..] == [];
    }
    shown := app.Index("");
    assert shown.page.passwords == [];
  }
}
