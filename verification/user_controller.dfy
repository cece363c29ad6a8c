/**
 * The user controller: reading a profile, and the self-only profile,
 * avatar and account operations with their 404-before-403 order.
 */
module UserController {
  import opened Prelude
  import opened AppErrors
  import opened Store
  import AuthModel
  import AuthMiddleware

  /** The public columns of a user row. */
  datatype Profile = Profile(username: string, name: string, avatarUrl: Option<string>)

  function ProfileOf(u: User): Profile {
    Profile(u.username, u.name, u.avatarUrl)
  }

  const CannotUpdateOthers: Thrown := Fail(Forbidden, "Cannot update other users")
  const CannotDeleteOthers: Thrown := Fail(Forbidden, "Cannot delete other users")

  /** `getUserByUsername`: the profile of that user, or 404. */
  function GetUserByUsername(db: Db, username: string): (r: Result<Reply<Profile>, Thrown>)
    ensures r.Err? <==> forall i :: 0 <= i < |db.users| ==> db.users[i].username != username
    ensures r.Err? ==> r.error == AuthModel.UserNotFound
    ensures r.Ok? ==> r.value.statusCode == 200 && r.value.body.username == username
    ensures r.Ok? ==>
      exists i :: 0 <= i < |db.users| && r.value.body == ProfileOf(db.users[i])
  {
    match AuthModel.FindUserByUsername(db, username)
    case None => Err(AuthModel.UserNotFound)
    case Some(u) => Ok(Reply(200, ProfileOf(u)))
  }

  /** `UPDATE users SET ... WHERE username = <name>`. */
  function UpdateUser(users: seq<User>, username: string, f: User -> User): (r: seq<User>)
    ensures |r| == |users|
    ensures forall i :: 0 <= i < |users| ==>
      r[i] == if users[i].username == username then f(users[i]) else users[i]
  {
    MapWhere(users, (u: User) => u.username == username, f)
  }

  /** The profile edit: a supplied field replaces the column, an absent one
      keeps it. */
  function EditProfile(u: User, name: Option<string>, avatarUrl: Option<string>): User {
    u.(name := name.GetOr(u.name), avatarUrl := if avatarUrl.Some? then avatarUrl else u.avatarUrl)
  }

  /** `updateUserProfile`: 404 for an unknown user, only then 403 for a
      caller who is someone else; the owner's edit changes that row alone. */
  function UpdateUserProfile(
    db: Db, username: string, name: Option<string>, avatarUrl: Option<string>, caller: AuthMiddleware.Identity)
    : (r: Outcome<Profile>)
    ensures AuthModel.FindUserByUsername(db, username).None? ==> r == Err(AuthModel.UserNotFound)
    ensures AuthModel.FindUserByUsername(db, username).Some? && username != caller.username ==>
      r == Err(CannotUpdateOthers)
    ensures AuthModel.FindUserByUsername(db, username).Some? && username == caller.username ==> r.Ok?
    ensures r.Ok? ==>
      var u := AuthModel.FindUserByUsername(db, username).value;
      && username == caller.username
      && r.value.1 == Reply(200, ProfileOf(EditProfile(u, name, avatarUrl)))
      && r.value.0 == db.(users := UpdateUser(db.users, username, (x: User) => EditProfile(x, name, avatarUrl)))
  {
    match AuthModel.FindUserByUsername(db, username)
    case None => Err(AuthModel.UserNotFound)
    case Some(u) =>
      if username != caller.username then Err(CannotUpdateOthers)
      else
        var f := (x: User) => EditProfile(x, name, avatarUrl);
        Ok((db.(users := UpdateUser(db.users, username, f)), Reply(200, ProfileOf(f(u)))))
  }

  /** A profile edit keeps every username and email, leaves the other users
      and the other tables alone, and keeps the keys unique. */
  lemma ProfileEditKeepsOthers(
    db: Db, username: string, name: Option<string>, avatarUrl: Option<string>, caller: AuthMiddleware.Identity)
    requires WellFormed(db)
    requires UpdateUserProfile(db, username, name, avatarUrl, caller).Ok?
    ensures var (db', reply) := UpdateUserProfile(db, username, name, avatarUrl, caller).value;
      && WellFormed(db')
      && reply.body.username == username
      && (name.Some? ==> reply.body.name == name.value)
      && (avatarUrl.Some? ==> reply.body.avatarUrl == avatarUrl)
      && db'.articles == db.articles && db'.comments == db.comments && db'.topics == db.topics
      && |db'.users| == |db.users|
      && (forall i :: 0 <= i < |db.users| ==>
            db'.users[i].username == db.users[i].username && db'.users[i].email == db.users[i].email
            && db'.users[i].passwordHash == db.users[i].passwordHash)
      && (forall i :: 0 <= i < |db.users| && db.users[i].username != username ==> db'.users[i] == db.users[i])
  {
    var f := (x: User) => EditProfile(x, name, avatarUrl);
    var db' := UpdateUserProfile(db, username, name, avatarUrl, caller).value.0;
    assert db'.users == UpdateUser(db.users, username, f);
    MapWhereUnique(db.users, (u: User) => u.username == username, f, UserKey);
    MapWhereUnique(db.users, (u: User) => u.username == username, f, EmailKey);
  }

  /** `updateUserAvatar`: a blank `avatar_url` is 400 before the existence
      and ownership checks. */
  function UpdateUserAvatar(db: Db, username: string, avatarUrl: Option<string>, caller: AuthMiddleware.Identity)
    : (r: Outcome<Profile>)
    ensures Blank(avatarUrl) ==> r == Err(Fail(BadRequest, "Bad request"))
    ensures !Blank(avatarUrl) && AuthModel.FindUserByUsername(db, username).None? ==> r == Err(AuthModel.UserNotFound)
    ensures !Blank(avatarUrl) && AuthModel.FindUserByUsername(db, username).Some? && username != caller.username ==>
      r == Err(CannotUpdateOthers)
    ensures r.Ok? ==> !Blank(avatarUrl) && username == caller.username
    ensures !Blank(avatarUrl) && AuthModel.FindUserByUsername(db, username).Some? && username == caller.username ==>
      var u := AuthModel.FindUserByUsername(db, username).value;
      r == Ok((db.(users := UpdateUser(db.users, username, (x: User) => x.(avatarUrl := avatarUrl))),
               Reply(200, ProfileOf(u.(avatarUrl := avatarUrl)))))
  {
    if Blank(avatarUrl) then Err(Fail(BadRequest, "Bad request"))
    else
      match AuthModel.FindUserByUsername(db, username)
      case None => Err(AuthModel.UserNotFound)
      case Some(u) =>
        if username != caller.username then Err(CannotUpdateOthers)
        else
          var f := (x: User) => x.(avatarUrl := avatarUrl);
          Ok((db.(users := UpdateUser(db.users, username, f)), Reply(200, ProfileOf(f(u)))))
  }

  /** A successful avatar update changes `avatar_url` and nothing else: the
      reply keeps the username and name, every row keeps its username, name,
      email and hash, and the keys stay unique. */
  lemma AvatarOnlyChangesAvatar(db: Db, username: string, avatarUrl: Option<string>, caller: AuthMiddleware.Identity)
    requires WellFormed(db)
    requires UpdateUserAvatar(db, username, avatarUrl, caller).Ok?
    ensures var (db', reply) := UpdateUserAvatar(db, username, avatarUrl, caller).value;
      var u := AuthModel.FindUserByUsername(db, username).value;
      && reply == Reply(200, Profile(u.username, u.name, avatarUrl))
      && WellFormed(db')
      && db'.articles == db.articles && db'.comments == db.comments && db'.topics == db.topics
      && |db'.users| == |db.users|
      && (forall i :: 0 <= i < |db.users| ==>
            db'.users[i] == (if db.users[i].username == username then db.users[i].(avatarUrl := avatarUrl) else db.users[i]))
      && (forall i :: 0 <= i < |db.users| ==> db'.users[i].(avatarUrl := db.users[i].avatarUrl) == db.users[i])
  {
    var f := (x: User) => x.(avatarUrl := avatarUrl);
    var db' := UpdateUserAvatar(db, username, avatarUrl, caller).value.0;
    assert db'.users == UpdateUser(db.users, username, f);
    MapWhereUnique(db.users, (u: User) => u.username == username, f, UserKey);
    MapWhereUnique(db.users, (u: User) => u.username == username, f, EmailKey);
  }

  /** `DELETE FROM users WHERE username = <name>`. */
  function WithoutUser(users: seq<User>, username: string): (r: seq<User>)
    ensures forall u :: u in r <==> u in users && u.username != username
  {
    Filter(users, (u: User) => u.username != username)
  }

  /** `deleteUserAccount`: 404 for an unknown user, then 403 for someone
      else, then the row goes. */
  function DeleteUserAccount(db: Db, username: string, caller: AuthMiddleware.Identity): (r: Outcome<Unit>)
    ensures AuthModel.FindUserByUsername(db, username).None? ==> r == Err(AuthModel.UserNotFound)
    ensures AuthModel.FindUserByUsername(db, username).Some? && username != caller.username ==>
      r == Err(CannotDeleteOthers)
    ensures AuthModel.FindUserByUsername(db, username).Some? && username == caller.username ==>
      r == Ok((db.(users := WithoutUser(db.users, username)), Reply(204, Unit)))
  {
    match AuthModel.FindUserByUsername(db, username)
    case None => Err(AuthModel.UserNotFound)
    case Some(_) =>
      if username != caller.username then Err(CannotDeleteOthers)
      else Ok((db.(users := WithoutUser(db.users, username)), Reply(204, Unit)))
  }

  /** After a self-delete the profile lookup is 404, a second delete is 404,
      and every other user is still there. */
  lemma DeletedUserIsGone(db: Db, username: string, caller: AuthMiddleware.Identity)
    requires DeleteUserAccount(db, username, caller).Ok?
    ensures var db' := DeleteUserAccount(db, username, caller).value.0;
      && GetUserByUsername(db', username) == Err(AuthModel.UserNotFound)
      && DeleteUserAccount(db', username, caller) == Err(AuthModel.UserNotFound)
      && (forall u :: u in db.users && u.username != username ==> u in db'.users)
  {
    var db' := DeleteUserAccount(db, username, caller).value.0;
    forall i | 0 <= i < |db'.users| ensures db'.users[i].username != username {
      assert db'.users[i] in db'.users;
    }
  }
}
