/**
 * The account store of data_base/db_auth_utils.py: a collection of user
 * records, loaded whole, changed and written back. The one-way digest
 * (sha256 in the source) is a function the store is built with; nothing is
 * assumed about it beyond being a function.
 */
module Accounts {
  import opened Common

  /**
   * A user record. `tweets` is absent until the tweet store first appends a
   * tweet id to it (data_base/db_tweet_utils.py creates the list on demand).
   */
  datatype User = User(
    username: string,
    email: string,
    passwordHash: string,
    salt: string,
    tweets: Option<seq<string>>)

  /** `add_user` raises ValueError("Username already exists"). */
  datatype AuthError = UsernameAlreadyExists

  /**
   * `_hash_password(password, salt)`: without a salt a fresh one is drawn
   * (`secrets.token_hex`, here the `freshSalt` argument); the hash is the
   * digest of the salt followed by the password, returned with that salt.
   */
  function HashPassword(digest: string -> string, password: string, salt: Option<string>, freshSalt: string)
    : (r: (string, string))
    ensures salt.Some? ==> r.1 == salt.value
    ensures salt.None? ==> r.1 == freshSalt
    ensures r.0 == digest(r.1 + password)
  {
    var s := if salt.Some? then salt.value else freshSalt;
    (digest(s + password), s)
  }

  /** The record `add_user` appends: no `tweets` field yet. */
  function NewUser(digest: string -> string, username: string, email: string, password: string, freshSalt: string)
    : User
  {
    var (hashed, salt) := HashPassword(digest, password, None, freshSalt);
    User(username, email, hashed, salt, None)
  }

  function Named(username: string): User -> bool
  {
    (u: User) => u.username == username
  }

  function NotNamed(username: string): User -> bool
  {
    (u: User) => u.username != username
  }

  /** The invariant `add_user` protects: usernames are keys. */
  predicate UniqueUsernames(users: seq<User>)
  {
    UniqueKeys(users, (u: User) => u.username)
  }

  /** `get_user`: the first record whose username matches, or None. */
  function GetUser(users: seq<User>, username: string): (r: Option<User>)
    ensures r.Some? <==> exists i :: 0 <= i < |users| && users[i].username == username
    ensures r.Some? ==> exists i :: 0 <= i < |users| && users[i] == r.value && users[i].username == username &&
                                    forall j :: 0 <= j < i ==> users[j].username != username
  {
    match FirstIndex(users, Named(username))
    case None => None
    case Some(i) => Some(users[i])
  }

  /** `delete_user`: the comprehension keeping the records whose username differs. */
  function RemoveUser(users: seq<User>, username: string): (r: seq<User>)
    ensures forall i :: 0 <= i < |r| ==> r[i] in users && r[i].username != username
    ensures forall i :: 0 <= i < |users| && users[i].username != username ==> users[i] in r
    ensures GetUser(users, username).None? ==> r == users
  {
    Filter(users, NotNamed(username))
  }

  /**
   * `authenticate`: False for an unknown username; otherwise the password is
   * hashed with the stored salt and compared with the stored hash.
   */
  function Authenticate(digest: string -> string, users: seq<User>, username: string, password: string): (ok: bool)
    ensures GetUser(users, username).None? ==> !ok
    ensures ok <==> GetUser(users, username).Some? &&
                    GetUser(users, username).value.passwordHash ==
                    digest(GetUser(users, username).value.salt + password)
  {
    match GetUser(users, username)
    case None => false
    case Some(u) =>
      var (hashed, _) := HashPassword(digest, password, Some(u.salt), u.salt);
      hashed == u.passwordHash
  }

  /** After a successful `add_user`, `get_user` finds the new record. */
  lemma {:induction false} GetUserAfterAdd(users: seq<User>, u: User)
    requires GetUser(users, u.username).None?
    ensures GetUser(users + [u], u.username) == Some(u)
  {
    var s := users + [u];
    assert s[|users|] == u;
    assert forall j :: 0 <= j < |users| ==> s[j] == users[j];
    var i :| 0 <= i < |s| && s[i] == GetUser(s, u.username).value && s[i].username == u.username &&
             forall j :: 0 <= j < i ==> s[j].username != u.username;
    assert i == |users|;
  }

  /** Adding a user leaves the lookup of every other username unchanged. */
  lemma {:induction false} GetOtherAfterAdd(users: seq<User>, u: User, other: string)
    requires other != u.username
    ensures GetUser(users + [u], other) == GetUser(users, other)
  {
    var s := users + [u];
    assert forall i :: 0 <= i < |users| ==> s[i] == users[i];
    match GetUser(users, other)
    case None =>
    case Some(v) =>
      var i :| 0 <= i < |users| && users[i] == v && users[i].username == other &&
               forall j :: 0 <= j < i ==> users[j].username != other;
      var k :| 0 <= k < |s| && s[k] == GetUser(s, other).value && s[k].username == other &&
               forall j :: 0 <= j < k ==> s[j].username != other;
      assert k == i;
  }

  /**
   * Immediately after `add_user(u, e, p)` succeeds, `authenticate(u, p)`
   * holds, whatever the digest and the fresh salt.
   */
  lemma AuthenticateAfterAdd(digest: string -> string, users: seq<User>,
                             username: string, email: string, password: string, freshSalt: string)
    requires GetUser(users, username).None?
    ensures Authenticate(digest, users + [NewUser(digest, username, email, password, freshSalt)], username, password)
  {
    GetUserAfterAdd(users, NewUser(digest, username, email, password, freshSalt));
  }

  /** Appending a record whose username is new keeps usernames unique. */
  lemma AddKeepsUnique(users: seq<User>, u: User)
    requires UniqueUsernames(users)
    requires GetUser(users, u.username).None?
    ensures UniqueUsernames(users + [u])
  {
  }

  /** `delete_user` keeps usernames unique, and afterwards the name is gone. */
  lemma RemoveKeepsUnique(users: seq<User>, username: string)
    requires UniqueUsernames(users)
    ensures UniqueUsernames(RemoveUser(users, username))
    ensures GetUser(RemoveUser(users, username), username).None?
  {
    FilterKeepsUniqueKeys(users, NotNamed(username), (u: User) => u.username);
  }

  /**
   * The users file. `digest` is the one-way function the source calls
   * sha256; `users` is the collection `_load_db` reads and `_save_db` writes.
   */
  class UserFile {
    var users: seq<User>
    const digest: string -> string

    ghost predicate Valid()
      reads this
    {
      UniqueUsernames(users)
    }

    /** A missing file reads as an empty collection. */
    constructor (digest: string -> string)
      ensures Valid() && users == [] && this.digest == digest
    {
      this.digest := digest;
      users := [];
    }

    /**
     * `add_user`: rejects a username already present and leaves the file
     * unchanged; otherwise appends one record with a freshly salted hash.
     * The email is not checked.
     */
    method AddUser(username: string, email: string, password: string, freshSalt: string)
      returns (r: Outcome<AuthError>)
      requires Valid()
      modifies this
      ensures Valid()
      ensures r.Fail? <==> GetUser(old(users), username).Some?
      ensures r.Fail? ==> r.error == UsernameAlreadyExists && users == old(users)
      ensures r.Pass? ==> users == old(users) + [NewUser(digest, username, email, password, freshSalt)]
      ensures r.Pass? ==> GetUser(users, username) == Some(NewUser(digest, username, email, password, freshSalt))
      ensures r.Pass? ==> Authenticate(digest, users, username, password)
    {
      if GetUser(users, username).Some? {
        return Fail(UsernameAlreadyExists);
      }
      var (hashed, salt) := HashPassword(digest, password, None, freshSalt);
      var u := User(username, email, hashed, salt, None);
      AddKeepsUnique(users, u);
      GetUserAfterAdd(users, u);
      AuthenticateAfterAdd(digest, users, username, email, password, freshSalt);
      users := users + [u];
      r := Pass;
    }

    /** `delete_user`: keeps the other records in order; an absent name is a silent no-op. */
    method DeleteUser(username: string)
      requires Valid()
      modifies this
      ensures Valid()
      ensures users == RemoveUser(old(users), username)
      ensures GetUser(users, username).None?
    {
      RemoveKeepsUnique(users, username);
      users := RemoveUser(users, username);
    }
  }

  /**
   * The account scenario of data_base/tests_DB.py on an empty file: add,
   * add the same username again, authenticate, delete, look up, delete again.
   * The second delete succeeds silently, as the code is written.
   */
  method AddAuthenticateDelete(digest: string -> string, username: string, email: string, otherEmail: string,
                               password: string, salt: string, otherSalt: string)
    returns (again: Outcome<AuthError>, authenticated: bool, afterDelete: Option<User>, remaining: seq<User>)
    ensures again == Fail(UsernameAlreadyExists)
    ensures authenticated
    ensures afterDelete == None
    ensures remaining == []
  {
    var file := new UserFile(digest);
    var added := file.AddUser(username, email, password, salt);
    again := file.AddUser(username, otherEmail, password, otherSalt);
    authenticated := Authenticate(digest, file.users, username, password);
    file.DeleteUser(username);
    afterDelete := GetUser(file.users, username);
    file.DeleteUser(username);
    remaining := file.users;
  }
}
