/**
 * The user table: lookup by user name, the credential check and the
 * start-up step that provisions the administrator account.
 */
module Accounts {
  import opened Wrappers

  /** One row of the user table; the hash is the opaque output of the hashing library. */
  datatype User = User(username: string, passwordHash: string)

  const ADMIN_USERNAME: string := "admin"

  /** The password the administrator account is created with. */
  const DEFAULT_ADMIN_PASSWORD: string := "contrasenaperrona"

  /** The user-name column is unique. */
  ghost predicate UniqueUsernames(users: seq<User>)
  {
    forall i, j :: 0 <= i < j < |users| ==> users[i].username != users[j].username
  }

  /**
   * The position of the first user with exactly this name (case-sensitive),
   * or None when there is none.
   */
  function FindUser(users: seq<User>, name: string): (r: Option<nat>)
    ensures r.Some? ==> r.value < |users| && users[r.value].username == name
    ensures r.Some? ==> forall i :: 0 <= i < r.value ==> users[i].username != name
    ensures r.None? <==> forall i :: 0 <= i < |users| ==> users[i].username != name
  {
    if users == [] then None
    else if users[0].username == name then Some(0)
    else match FindUser(users[1..], name)
      case None => None
      case Some(i) => Some(i + 1)
  }

  /**
   * The credential check: the id (position plus one) of the user called
   * `username` when that user exists and the password check accepts
   * `password` against the stored hash. A missing user name matches no row;
   * a missing password is refused.
   */
  function Verify(users: seq<User>, username: Option<string>, password: Option<string>,
                  check: (string, string) -> bool): Option<nat>
  {
    if username.None? || password.None? then None
    else match FindUser(users, username.value)
      case None => None
      case Some(i) => if check(users[i].passwordHash, password.value) then Some(i + 1) else None
  }

  /**
   * With unique user names, the check yields an id exactly when that row
   * carries the given name and its hash accepts the given password.
   */
  lemma VerifyIff(users: seq<User>, username: Option<string>, password: Option<string>,
                  check: (string, string) -> bool, id: nat)
    requires UniqueUsernames(users)
    ensures Verify(users, username, password, check) == Some(id) <==>
      && username.Some? && password.Some?
      && 1 <= id <= |users|
      && users[id - 1].username == username.value
      && check(users[id - 1].passwordHash, password.value)
  {
    if username.Some? && password.Some? && 1 <= id <= |users| && users[id - 1].username == username.value {
      var found := FindUser(users, username.value);
      assert found == Some(id - 1);
    }
  }

  /** How many users carry this name. */
  function CountNamed(users: seq<User>, name: string): nat
  {
    if users == [] then 0
    else CountNamed(users[..|users| - 1], name) + (if users[|users| - 1].username == name then 1 else 0)
  }

  /** Under unique user names a name is carried once if present and never otherwise. */
  lemma {:induction false} CountNamedUnique(users: seq<User>, name: string)
    requires UniqueUsernames(users)
    ensures CountNamed(users, name) == if FindUser(users, name).Some? then 1 else 0
  {
    if users != [] {
      var init := users[..|users| - 1];
      assert UniqueUsernames(init);
      CountNamedUnique(init, name);
      if users[|users| - 1].username == name {
        assert forall i :: 0 <= i < |init| ==> init[i].username != name;
      } else {
        assert FindUser(init, name).Some? <==> FindUser(users, name).Some?;
      }
    }
  }

  /** `init_db`: add the administrator with the hashed default password unless one exists. */
  function Bootstrap(users: seq<User>, hash: string -> string): (r: seq<User>)
    ensures users <= r
    ensures FindUser(users, ADMIN_USERNAME).Some? ==> r == users
    ensures |r| == |users| + (if FindUser(users, ADMIN_USERNAME).Some? then 0 else 1)
    ensures FindUser(users, ADMIN_USERNAME).None? ==>
      r[|users|] == User(ADMIN_USERNAME, hash(DEFAULT_ADMIN_PASSWORD))
  {
    if FindUser(users, ADMIN_USERNAME).Some? then users
    else users + [User(ADMIN_USERNAME, hash(DEFAULT_ADMIN_PASSWORD))]
  }

  /** Running the bootstrap a second time changes nothing. */
  lemma BootstrapIdempotent(users: seq<User>, hash: string -> string)
    ensures Bootstrap(Bootstrap(users, hash), hash) == Bootstrap(users, hash)
  {
    var once := Bootstrap(users, hash);
    if FindUser(users, ADMIN_USERNAME).None? {
      assert once[|users|].username == ADMIN_USERNAME;
    }
  }

  /**
   * After the bootstrap there is exactly one administrator, the user names
   * are still unique and the earlier users are kept.
   */
  lemma BootstrapOneAdmin(users: seq<User>, hash: string -> string)
    requires UniqueUsernames(users)
    ensures UniqueUsernames(Bootstrap(users, hash))
    ensures CountNamed(Bootstrap(users, hash), ADMIN_USERNAME) == 1
  {
    var once := Bootstrap(users, hash);
    if FindUser(users, ADMIN_USERNAME).None? {
      assert once[|users|].username == ADMIN_USERNAME;
      assert once[..|once| - 1] == users;
      CountNamedUnique(users, ADMIN_USERNAME);
    } else {
      CountNamedUnique(users, ADMIN_USERNAME);
    }
  }

  /**
   * When the bootstrap created the administrator, logging in with the
   * default password succeeds, provided the hashing library accepts a
   * password against its own hash.
   */
  lemma BootstrappedAdminCanLogIn(users: seq<User>, hash: string -> string, check: (string, string) -> bool)
    requires UniqueUsernames(users)
    requires FindUser(users, ADMIN_USERNAME).None?
    requires check(hash(DEFAULT_ADMIN_PASSWORD), DEFAULT_ADMIN_PASSWORD)
    ensures Verify(Bootstrap(users, hash), Some(ADMIN_USERNAME), Some(DEFAULT_ADMIN_PASSWORD), check) == Some(|users| + 1)
  {
    var once := Bootstrap(users, hash);
    BootstrapOneAdmin(users, hash);
    VerifyIff(once, Some(ADMIN_USERNAME), Some(DEFAULT_ADMIN_PASSWORD), check, |users| + 1);
  }
}
