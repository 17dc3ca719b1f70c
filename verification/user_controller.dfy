/** The `users` resource: `createUser` and `getUsers` of controllers/userController.js. */
module UserController {
  import opened Wrappers
  import opened Params
  import opened Storage
  import opened Http

  const UsernameRequired: string := "ValidationError: Users validation failed: username: Path `username` is required."
  const UserExists: string := "Error: User already exists"

  /**
   * POST a new user: a missing or empty username is refused before the store is consulted, an
   * exactly equal existing username is refused, anything else is inserted under a fresh id.
   */
  function CreateUser(s: Store, username: Option<string>): (out: Handled)
    ensures !out.response.Ok? ==> out.store == s
    ensures !Truthy(username) ==> out.response == BadRequest(UsernameRequired)
    ensures Truthy(username) && UsernameTaken(s.users, username.value) ==> out.response == BadRequest(UserExists)
    ensures out.response.Ok? <==> Truthy(username) && !UsernameTaken(s.users, username.value)
    ensures out.response.Ok? ==>
      && AppendsUser(s, out.store)
      && out.store.users[|s.users|].username == username.value
      && out.response.reply == UserCreated(username.value, out.store.users[|s.users|].id)
  {
    if !Truthy(username) then Handled(BadRequest(UsernameRequired), s)
    else if UsernameTaken(s.users, username.value) then Handled(BadRequest(UserExists), s)
    else
      var t := InsertUser(s, username.value);
      Handled(Ok(UserCreated(username.value, s.nextUserId)), t)
  }

  /** GET all users: every row, in table order; nothing is written. */
  function GetUsers(s: Store): (out: Handled)
    ensures out.store == s
    ensures out.response.Ok? && out.response.reply.UserList?
    ensures forall u :: u in out.response.reply.users <==> u in s.users
    ensures |out.response.reply.users| == |s.users|
    ensures forall i :: 0 <= i < |s.users| ==> out.response.reply.users[i] == s.users[i]
  {
    Handled(Ok(UserList(s.users)), s)
  }

  /** The new user's id differs from every existing id, so the reply names exactly the new row. */
  lemma CreatedIdIsFresh(s: Store, username: Option<string>)
    requires Valid(s)
    requires CreateUser(s, username).response.Ok?
    ensures forall u :: u in s.users ==> u.id != CreateUser(s, username).response.reply.id
  {
  }

  /** Creating a user keeps the store valid; in particular usernames stay pairwise distinct. */
  lemma CreateUserPreservesValid(s: Store, username: Option<string>)
    requires Valid(s)
    ensures Valid(CreateUser(s, username).store)
  {
    var out := CreateUser(s, username);
    if out.response.Ok? {
      var t := out.store;
      var name := username.value;
      assert t.users == s.users + [User(s.nextUserId, name)];
      forall i, j | 0 <= i < j < |t.users|
        ensures t.users[i].username != t.users[j].username
      {
        if j == |s.users| {
          assert t.users[i] in s.users;
        } else {
          assert t.users[i] == s.users[i] && t.users[j] == s.users[j];
        }
      }
      forall i, j | 0 <= i < j < |t.users|
        ensures t.users[i].id != t.users[j].id
      {
        if j == |s.users| {
          assert t.users[i] in s.users;
        } else {
          assert t.users[i] == s.users[i] && t.users[j] == s.users[j];
        }
      }
      forall e | e in t.exercises
        ensures exists u :: u in t.users && u.id == e.userId && u.username == e.username
      {
        var u :| u in s.users && u.id == e.userId && u.username == e.username;
        assert u in t.users;
      }
    }
  }

  /** After a successful creation, listing the users shows the new username exactly once. */
  lemma CreatedUserListedOnce(s: Store, name: string)
    requires Valid(s)
    requires CreateUser(s, Some(name)).response.Ok?
    ensures var t := CreateUser(s, Some(name)).store;
      CountUsername(GetUsers(t).response.reply.users, name) == 1
  {
    var t := CreateUser(s, Some(name)).store;
    CreateUserPreservesValid(s, Some(name));
    assert t.users[|s.users|] in t.users;
    CountUsernameOnce(t.users, name);
  }

  /** A second creation with the same username is refused and adds no row. */
  lemma CreateUserTwiceRefused(s: Store, name: string)
    requires CreateUser(s, Some(name)).response.Ok?
    ensures var t := CreateUser(s, Some(name)).store;
      CreateUser(t, Some(name)) == Handled(BadRequest(UserExists), t)
  {
    var t := CreateUser(s, Some(name)).store;
    assert t.users[|s.users|] in t.users;
  }
}
