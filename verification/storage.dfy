/**
 * The two tables, `users` and `exercises`, as an immutable in-memory store, and the handful of
 * SQL statements the handlers issue against them.
 *
 * The schema declares `id INTEGER PRIMARY KEY AUTOINCREMENT` for both tables, `username TEXT NOT
 * NULL` without a UNIQUE constraint, and a foreign key from `exercises.user_id` to `users.id`.
 * AUTOINCREMENT hands out ids larger than any ever used, which the `next...Id` counters model.
 */
module Storage {
  import opened Wrappers
  import opened Dates

  datatype User = User(id: int, username: string)

  datatype Exercise = Exercise(
    id: int,
    userId: int,
    username: string,   // snapshot of the owner's username at insert time
    date: Instant,
    duration: real,
    description: string)

  datatype Store = Store(
    users: seq<User>,
    exercises: seq<Exercise>,
    nextUserId: int,
    nextExerciseId: int)

  /** The freshly created database. */
  const Empty: Store := Store([], [], 1, 1)

  /** `SELECT * FROM users WHERE username = ?` finds a row. */
  predicate UsernameTaken(users: seq<User>, name: string)
  {
    exists u :: u in users && u.username == name
  }

  predicate DistinctUserIds(users: seq<User>)
  {
    forall i, j :: 0 <= i < j < |users| ==> users[i].id != users[j].id
  }

  /** The uniqueness the service promises for usernames; only the handlers' own check keeps it. */
  predicate DistinctUsernames(users: seq<User>)
  {
    forall i, j :: 0 <= i < j < |users| ==> users[i].username != users[j].username
  }

  /**
   * What every reachable store satisfies: ids are below the AUTOINCREMENT counters and distinct,
   * usernames are distinct, and every exercise refers to an existing user whose username it copied.
   */
  predicate Valid(s: Store)
  {
    && 1 <= s.nextUserId && 1 <= s.nextExerciseId
    && (forall u :: u in s.users ==> 1 <= u.id < s.nextUserId)
    && DistinctUserIds(s.users)
    && DistinctUsernames(s.users)
    && (forall e :: e in s.exercises ==> 1 <= e.id < s.nextExerciseId)
    && (forall i, j :: 0 <= i < j < |s.exercises| ==> s.exercises[i].id != s.exercises[j].id)
    && (forall e :: e in s.exercises ==> exists u :: u in s.users && u.id == e.userId && u.username == e.username)
  }

  lemma EmptyIsValid()
    ensures Valid(Empty)
  {
  }

  /** `SELECT * FROM users WHERE id = ?`: the first row (in table order) whose id is the key. */
  function FindUser(users: seq<User>, key: Option<int>): (r: Option<User>)
    ensures r.Some? ==> r.value in users && key == Some(r.value.id)
    ensures r.None? ==> forall u :: u in users ==> key != Some(u.id)
  {
    if users == [] then None
    else if key == Some(users[0].id) then Some(users[0])
    else FindUser(users[1..], key)
  }

  /** `INSERT INTO users (username) VALUES (?)`: no uniqueness is enforced by the table. */
  function InsertUser(s: Store, name: string): Store
  {
    s.(users := s.users + [User(s.nextUserId, name)], nextUserId := s.nextUserId + 1)
  }

  /** `INSERT INTO exercises (user_id, username, date, duration, description) VALUES (...)`. */
  function InsertExercise(s: Store, userId: int, username: string, date: Instant, duration: real, description: string): Store
  {
    s.(exercises := s.exercises + [Exercise(s.nextExerciseId, userId, username, date, duration, description)],
       nextExerciseId := s.nextExerciseId + 1)
  }

  /** With a unique key, the lookup finds exactly the user carrying it. */
  lemma FindUserUnique(users: seq<User>, u: User)
    requires DistinctUserIds(users) && u in users
    ensures FindUser(users, Some(u.id)) == Some(u)
  {
    var r := FindUser(users, Some(u.id));
    var i :| 0 <= i < |users| && users[i] == u;
    var j :| 0 <= j < |users| && users[j] == r.value;
    assert i == j;
  }

  /**
   * The table alone does not keep usernames unique: inserting a taken name directly produces two
   * users with the same username.
   */
  lemma SchemaAllowsDuplicateUsernames(s: Store, name: string)
    requires UsernameTaken(s.users, name)
    ensures !DistinctUsernames(InsertUser(s, name).users)
  {
    var t := InsertUser(s, name).users;
    var i :| 0 <= i < |s.users| && s.users[i].username == name;
    assert t[i] == s.users[i] && t[|s.users|].username == name;
  }

  /** `t` is `s` with exactly one user appended, carrying a fresh id; nothing else differs. */
  predicate AppendsUser(s: Store, t: Store)
  {
    && |t.users| == |s.users| + 1
    && t.users[..|s.users|] == s.users
    && t.users[|s.users|].id == s.nextUserId
    && t.nextUserId == s.nextUserId + 1
    && t.exercises == s.exercises
    && t.nextExerciseId == s.nextExerciseId
  }

  /** `t` is `s` with exactly one exercise appended, carrying a fresh id; nothing else differs. */
  predicate AppendsExercise(s: Store, t: Store)
  {
    && |t.exercises| == |s.exercises| + 1
    && t.exercises[..|s.exercises|] == s.exercises
    && t.exercises[|s.exercises|].id == s.nextExerciseId
    && t.nextExerciseId == s.nextExerciseId + 1
    && t.users == s.users
    && t.nextUserId == s.nextUserId
  }

  /** How many listed users carry the given username. */
  function CountUsername(users: seq<User>, name: string): (n: nat)
    ensures n <= |users|
    ensures n == 0 <==> !UsernameTaken(users, name)
  {
    if users == [] then 0
    else (if users[0].username == name then 1 else 0) + CountUsername(users[1..], name)
  }

  /** Under distinct usernames, a taken username is listed exactly once. */
  lemma {:induction false} CountUsernameOnce(users: seq<User>, name: string)
    requires DistinctUsernames(users) && UsernameTaken(users, name)
    ensures CountUsername(users, name) == 1
  {
    var tail := users[1..];
    assert DistinctUsernames(tail) by {
      forall i, j | 0 <= i < j < |tail|
        ensures tail[i].username != tail[j].username
      {
        assert tail[i] == users[i + 1] && tail[j] == users[j + 1];
      }
    }
    if users[0].username == name {
      assert !UsernameTaken(tail, name) by {
        forall u | u in tail
          ensures u.username != name
        {
          var k :| 0 <= k < |tail| && tail[k] == u;
          assert u == users[k + 1];
        }
      }
    } else {
      var u :| u in users && u.username == name;
      assert u in tail by {
        var k :| 0 <= k < |users| && users[k] == u;
        assert k != 0;
        assert tail[k - 1] == u;
      }
      CountUsernameOnce(tail, name);
    }
  }
}
