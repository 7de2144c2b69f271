/** Row types of the vault's two SQLite tables and the foreign primitives they depend on. */
module Records {

  datatype Option<+T> = None | Some(value: T)

  /** A row of the `users` table: `(id, username, password, email)`; the password column holds a hash. */
  datatype UserRow = UserRow(id: nat, username: string, passwordHash: string, email: string)

  /** A row of the `passwords` table: `(user_id, service, password)`; the secret is stored as given. */
  datatype PasswordRow = PasswordRow(userId: nat, service: string, password: string)

  /**
   * werkzeug's salted password hashing, kept abstract: `generate(salt, password)` stands for
   * `generate_password_hash` with the random salt made an explicit input, and `check(hash, password)`
   * for `check_password_hash`.
   */
  datatype Hasher = Hasher(generate: (nat, string) -> string, check: (string, string) -> bool)

  /** The one property the vault relies on: a hash accepts the password that produced it. */
  ghost predicate Sound(h: Hasher)
  {
    forall salt: nat, password: string :: h.check(h.generate(salt, password), password)
  }

  /** `s LIKE '%t%'`, read as plain substring containment: `t` is a prefix of some suffix of `s`. */
  predicate Contains(s: string, t: string)
  {
    t <= s || (s != [] && Contains(s[1..], t))
  }

  /** `Contains` means what it says: `t` starts at some position of `s`. */
  lemma {:induction false} ContainsAt(s: string, t: string)
    ensures Contains(s, t) <==> exists k :: 0 <= k <= |s| && t <= s[k..]
  {
    if t <= s {
      assert s[0..] == s;
    } else if s != [] {
      ContainsAt(s[1..], t);
      forall k | 0 <= k <= |s[1..]| ensures s[1..][k..] == s[k + 1..] { }
      forall k | 0 <= k <= |s| && t <= s[k..] ensures 1 <= k && t <= s[1..][k - 1..] {
        assert s[0..] == s;
      }
    } else {
      forall k | 0 <= k <= |s| ensures !(t <= s[k..]) {
        assert s[k..] == s;
      }
    }
  }
}
