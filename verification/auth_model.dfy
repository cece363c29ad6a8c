/**
 * The user queries of the authentication model: registration with its
 * username/email uniqueness check, and the two single-user lookups.
 */
module AuthModel {
  import opened Prelude
  import opened AppErrors
  import opened Store

  /** `findUserByEmail`: the first user with that email, if any. */
  function FindUserByEmail(db: Db, email: string): (r: Option<User>)
    ensures r.Some? ==> r.value in db.users && r.value.email == email
    ensures r.None? <==> forall i :: 0 <= i < |db.users| ==> db.users[i].email != email
  {
    FindFirst(db.users, (u: User) => u.email == email)
  }

  /** `findUserByUsername`: the first user with that username, if any. */
  function FindUserByUsername(db: Db, username: string): (r: Option<User>)
    ensures r.Some? ==> r.value in db.users && r.value.username == username
    ensures r.None? <==> forall i :: 0 <= i < |db.users| ==> db.users[i].username != username
  {
    FindFirst(db.users, (u: User) => u.username == username)
  }

  const UserNotFound: Thrown := Fail(NotFound, "User not found")

  /** Some user already has the username or the email. */
  predicate Taken(db: Db, username: string, email: string) {
    exists i :: 0 <= i < |db.users| && (db.users[i].username == username || db.users[i].email == email)
  }

  const AccountTaken: Thrown := Fail(Conflict, "Username or email already exists")

  /** `createUser`: 409 when the username or the email is taken, otherwise
      the new row (no avatar yet) is inserted and returned. */
  function CreateUser(db: Db, username: string, name: string, email: string, passwordHash: string)
    : (r: Result<(Db, User), Thrown>)
    ensures r.Err? <==> Taken(db, username, email)
    ensures r.Err? ==> r.error == AccountTaken
    ensures r.Ok? ==>
      var (db', u) := r.value;
      u == User(username, name, email, passwordHash, None) && db' == db.(users := db.users + [u])
  {
    var clash := FindFirst(db.users, (u: User) => u.username == username || u.email == email);
    if clash.Some? then Err(AccountTaken)
    else
      var u := User(username, name, email, passwordHash, None);
      Ok((db.(users := db.users + [u]), u))
  }

  /** Registration keeps usernames and emails unique, and the new user is
      then the one found under its username and under its email. */
  lemma CreateUserKeepsKeys(db: Db, username: string, name: string, email: string, passwordHash: string)
    requires WellFormed(db)
    requires CreateUser(db, username, name, email, passwordHash).Ok?
    ensures var (db', u) := CreateUser(db, username, name, email, passwordHash).value;
      WellFormed(db') && FindUserByUsername(db', username) == Some(u) && FindUserByEmail(db', email) == Some(u)
  {
    var (db', u) := CreateUser(db, username, name, email, passwordHash).value;
    AppendUnique(db.users, u, UserKey);
    AppendUnique(db.users, u, EmailKey);
    UniqueLookup(db'.users, UserKey, (u: User) => u.username == username, username, |db.users|);
    UniqueLookup(db'.users, EmailKey, (u: User) => u.email == email, email, |db.users|);
  }
}
