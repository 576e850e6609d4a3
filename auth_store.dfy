/** The identity store: an append-only registry of users (with passwords) and a session
    that is either anonymous or holds the signed-in user. */
module Auth {
  import opened Wrappers
  import opened Types
  import opened Records

  /** A registry entry; unlike the session's User it keeps the password. */
  datatype StoredUser = StoredUser(
    id: string,
    name: string,
    email: string,
    password: string,
    role: Role,
    created_at: int)

  const InvalidCredentials: string := "Invalid email, password, or role"
  const DuplicateEmail: string := "User with this email already exists"

  function EmailOf(u: StoredUser): string { u.email }

  /** The session's copy of a registry entry: every field but the password. */
  function Public(u: StoredUser): User {
    User(u.id, u.email, u.name, u.role, u.created_at)
  }

  /** Exact match on all three credentials (no case folding, no trimming). */
  predicate Matches(u: StoredUser, email: string, password: string, role: Role) {
    u.email == email && u.password == password && u.role == role
  }

  /** `findUser(email, password, role)`: the first registered user matching all three. */
  function FindUser(users: seq<StoredUser>, email: string, password: string, role: Role): (r: Option<StoredUser>)
    ensures r.None? <==> forall i :: 0 <= i < |users| ==> !Matches(users[i], email, password, role)
    ensures r.Some? ==> r.value in users && Matches(r.value, email, password, role)
    ensures r.Some? ==> exists i :: 0 <= i < |users| && users[i] == r.value
                                    && forall j :: 0 <= j < i ==> !Matches(users[j], email, password, role)
  {
    FirstWhere(users, u => Matches(u, email, password, role))
  }

  /** `userExists(email)`: some registered user has exactly that email. */
  predicate UserExists(users: seq<StoredUser>, email: string)
    ensures UserExists(users, email) <==> exists i :: 0 <= i < |users| && users[i].email == email
  {
    assert forall i :: 0 <= i < |users| ==> Keys(users, EmailOf)[i] == users[i].email;
    email in Keys(users, EmailOf)
  }

  /** After registering a fresh email, logging in with the same credentials finds the new user. */
  lemma RegisterThenLogin(users: seq<StoredUser>, u: StoredUser)
    requires !UserExists(users, u.email)
    ensures FindUser(users + [u], u.email, u.password, u.role) == Some(u)
  {
    var all := users + [u];
    assert all[|users|] == u;
    var r := FindUser(all, u.email, u.password, u.role);
    var i :| 0 <= i < |all| && all[i] == r.value
             && forall j :: 0 <= j < i ==> !Matches(all[j], u.email, u.password, u.role);
  }

  class AuthStore {
    /** The persisted registry. */
    var users: seq<StoredUser>
    var user: Option<User>
    var isAuthenticated: bool

    /** The session is signed in exactly when it holds a user. */
    ghost predicate Valid()
      reads this
    {
      isAuthenticated <==> user.Some?
    }

    /** The initial state over whatever registry is already stored. */
    constructor (registry: seq<StoredUser>)
      ensures Valid()
      ensures users == registry && user == None && !isAuthenticated
    {
      users, user, isAuthenticated := registry, None, false;
    }

    /** `saveUser(u)`: append to the registry. */
    method SaveUser(u: StoredUser)
      modifies this`users
      ensures users == old(users) + [u]
    {
      users := users + [u];
    }

    /** `login(email, password, role)`; the registry is only read. */
    method Login(email: string, password: string, role: Role) returns (err: Option<string>)
      modifies this`user, this`isAuthenticated
      ensures FindUser(users, email, password, role).None? ==>
                err == Some(InvalidCredentials) && user == old(user) && isAuthenticated == old(isAuthenticated)
      ensures FindUser(users, email, password, role).Some? ==>
                err == None && user == Some(Public(FindUser(users, email, password, role).value)) && isAuthenticated
      ensures old(Valid()) ==> Valid()
    {
      var stored := FindUser(users, email, password, role);
      if stored.None? {
        return Some(InvalidCredentials);
      }
      user, isAuthenticated := Some(Public(stored.value)), true;
      err := None;
    }

    /** `register(name, email, password, role)`; the generated id and the clock reading are
        parameters. */
    method Register(name: string, email: string, password: string, role: Role, newId: string, now: int)
      returns (err: Option<string>)
      modifies this
      ensures UserExists(old(users), email) ==>
                err == Some(DuplicateEmail) && users == old(users)
                && user == old(user) && isAuthenticated == old(isAuthenticated)
      ensures !UserExists(old(users), email) ==>
                && err == None
                && users == old(users) + [StoredUser(newId, name, email, password, role, now)]
                && user == Some(User(newId, email, name, role, now))
                && isAuthenticated
      ensures old(Valid()) ==> Valid()
      ensures old(UniqueKeys(users, EmailOf)) ==> UniqueKeys(users, EmailOf)
    {
      if UserExists(users, email) {
        return Some(DuplicateEmail);
      }
      var stored := StoredUser(newId, name, email, password, role, now);
      SaveUser(stored);
      user, isAuthenticated := Some(Public(stored)), true;
      err := None;
    }

    /** `logout()`: back to the anonymous session, whatever the state. */
    method Logout()
      modifies this`user, this`isAuthenticated
      ensures user == None && !isAuthenticated
      ensures Valid()
    {
      user, isAuthenticated := None, false;
    }
  }
}
