/**
 * The handlers written inline in index.js, the copy the entry point actually serves. They repeat the
 * controllers' logic with three differences: the exercise owner is read from the body field
 * `":_id"`, the logs route demands a numeric id, and the log query has no ORDER BY and counts after
 * the LIMIT.
 */
module InlineApp {
  import opened Wrappers
  import opened Dates
  import opened Params
  import opened Storage
  import opened Http
  import opened Query
  import UserController
  import ExerciseController

  const DescriptionRequired: string := "Description is required in the request body"
  const DurationRequired: string := "Duration is required in the request body"
  const DurationInvalid: string := "Duration must be a valid number greater than 0"
  const DateFormatInvalid: string := "Date must be in the format YYYY-MM-DD"
  const UserIdRequired: string := "User ID (_id) is required in the request body"
  const InvalidUserId: string := "Invalid user ID"

  /** `POST /api/users`. */
  function CreateUser(s: Store, username: Option<string>): (out: Handled)
    ensures !out.response.Ok? ==> out.store == s
    ensures !Truthy(username) ==> out.response == BadRequest(UserController.UsernameRequired)
    ensures Truthy(username) && UsernameTaken(s.users, username.value) ==>
      out.response == BadRequest(UserController.UserExists)
    ensures out.response.Ok? ==>
      && AppendsUser(s, out.store)
      && out.store.users[|s.users|].username == username.value
      && out.response.reply == UserCreated(username.value, out.store.users[|s.users|].id)
  {
    if !Truthy(username) then
      Handled(BadRequest(UserController.UsernameRequired), s)
    else if exists u :: u in s.users && u.username == username.value then
      Handled(BadRequest(UserController.UserExists), s)
    else
      Handled(Ok(UserCreated(username.value, s.nextUserId)),
              s.(users := s.users + [User(s.nextUserId, username.value)], nextUserId := s.nextUserId + 1))
  }

  /** `GET /api/users`. */
  function GetUsers(s: Store): (out: Handled)
    ensures out.store == s
    ensures out.response.Ok? && out.response.reply.UserList?
    ensures forall u :: u in out.response.reply.users <==> u in s.users
  {
    Handled(Ok(UserList(s.users)), s)
  }

  /** The inline duration check's first half: `!duration || duration.trim() === ""`. */
  predicate DurationGiven(n: NumberParam)
  {
    !n.Missing? && !n.Blank?
  }

  /**
   * `POST /api/users/:_id/exercises`. The path parameter `path` is never read: the owner is the
   * body field `":_id"`, here `bodyId`.
   */
  function AddExercise(s: Store, path: IdParam, form: ExerciseForm, bodyId: IdParam, now: Instant): (out: Handled)
    ensures !out.response.Ok? ==> out.store == s
    ensures !DescriptionGiven(form.description) ==> out.response == BadRequest(DescriptionRequired)
    ensures DescriptionGiven(form.description) && !DurationGiven(form.duration) ==>
      out.response == BadRequest(DurationRequired)
    ensures DescriptionGiven(form.description) && DurationGiven(form.duration) && !DurationPositive(form.duration) ==>
      out.response == BadRequest(DurationInvalid)
    ensures DescriptionGiven(form.description) && DurationPositive(form.duration) && !DateAcceptable(form.date) ==>
      out.response == BadRequest(DateFormatInvalid)
    ensures out.response.NotFound? <==>
      ExerciseController.FormValid(form) && !ExerciseController.KnownUser(s.users, LookupKey(bodyId))
    ensures out.response.Ok? ==>
      && AppendsExercise(s, out.store)
      && LookupKey(bodyId) == Some(out.store.exercises[|s.exercises|].userId)
  {
    if !DescriptionGiven(form.description) then Handled(BadRequest(DescriptionRequired), s)
    else if !DurationGiven(form.duration) then Handled(BadRequest(DurationRequired), s)
    else if !DurationPositive(form.duration) then Handled(BadRequest(DurationInvalid), s)
    else if !DateAcceptable(form.date) then Handled(BadRequest(DateFormatInvalid), s)
    else
      match FindUser(s.users, LookupKey(bodyId))
      case None => Handled(NotFound("User with ID " + IdText(bodyId) + " is not found"), s)
      case Some(u) =>
        var when := EntryDate(form.date, now);
        var t := InsertExercise(s, u.id, u.username, when, form.duration.value, form.description.value);
        Handled(Ok(ExerciseAdded(IdText(bodyId), u.username, when, form.duration.value, form.description.value)), t)
  }

  /** `POST /api/users//exercises`: always refused, never writes. */
  function AddExerciseWithoutId(s: Store, form: ExerciseForm): (out: Handled)
    ensures out == Handled(BadRequest(UserIdRequired), s)
  {
    Handled(BadRequest(UserIdRequired), s)
  }

  /** `!userId || isNaN(userId)`. */
  predicate IdRejected(p: IdParam)
  {
    p.Absent? || p.text == "" || !p.numeric
  }

  /**
   * `GET /api/users/:_id/logs`: a missing or non-numeric id is refused before any lookup; otherwise
   * the matching entries in table order, cut by the limit, with `count` the length of what is returned.
   */
  function GetLogs(s: Store, p: IdParam, q: LogQuery): (out: Handled)
    ensures out.store == s
    ensures IdRejected(p) ==> out.response == BadRequest(InvalidUserId)
    ensures out.response.NotFound? <==> !IdRejected(p) && !ExerciseController.KnownUser(s.users, LookupKey(p))
    ensures out.response.NotFound? ==> out.response.message == ExerciseController.UserNotFound(p)
    ensures out.response.Ok? <==> !IdRejected(p) && ExerciseController.KnownUser(s.users, LookupKey(p))
    ensures out.response.Ok? ==>
      && out.response.reply.ExerciseLog?
      && LookupKey(p) == Some(out.response.reply.id)
      && (exists u :: u in s.users && u.id == out.response.reply.id && u.username == out.response.reply.username)
      && var matching := ExerciseController.MatchingEntries(s, out.response.reply.id, q);
      && |out.response.reply.log| <= |matching|
      && out.response.reply.log == matching[..|out.response.reply.log|]
      && (Cuts(q.limit, |matching|) ==> |out.response.reply.log| == q.limit.value)
      && (!Cuts(q.limit, |matching|) ==> out.response.reply.log == matching)
      && out.response.reply.count == |out.response.reply.log|
      && (q.limit.Some? && q.limit.value > 0 ==> out.response.reply.count <= q.limit.value)
  {
    if IdRejected(p) then Handled(BadRequest(InvalidUserId), s)
    else
      match FindUser(s.users, LookupKey(p))
      case None => Handled(NotFound(ExerciseController.UserNotFound(p)), s)
      case Some(u) =>
        var matching := ExerciseController.MatchingEntries(s, u.id, q);
        var log := Limit(matching, LimitClause(q.limit));
        LimitShape(matching, q.limit);
        Handled(Ok(ExerciseLog(u.id, u.username, |log|, log)), s)
  }

  /**
   * Every inline log entry is one of the requested user's exercises, on or after `from` and on or
   * before `to` whenever that bound is a valid date.
   */
  lemma LogEntriesMatch(s: Store, p: IdParam, q: LogQuery, i: int)
    requires GetLogs(s, p, q).response.Ok?
    requires 0 <= i < |GetLogs(s, p, q).response.reply.log|
    ensures var r := GetLogs(s, p, q).response.reply;
      && (exists e :: e in s.exercises && e.userId == r.id && Entry(e) == r.log[i])
      && (Bound(q.from).Some? ==> AtOrBefore(Bound(q.from).value, r.log[i].date))
      && (Bound(q.to).Some? ==> AtOrBefore(r.log[i].date, Bound(q.to).value))
  {
    var r := GetLogs(s, p, q).response.reply;
    var rows := Where(s.exercises, r.id, Bound(q.from), Bound(q.to));
    assert r.log[i] == Entries(rows)[i];
    assert rows[i] in rows;
  }

  /** A `from` or `to` that is not a strict date is ignored: the reply is as if it were absent. */
  lemma InvalidBoundsIgnored(s: Store, p: IdParam, q: LogQuery)
    requires q.from.Some? ==> ParseDate(q.from.value).None?
    requires q.to.Some? ==> ParseDate(q.to.value).None?
    ensures GetLogs(s, p, q) == GetLogs(s, p, LogQuery(None, None, q.limit))
  {
  }

  /** The inline append never reads the path parameter. */
  lemma AddExerciseIgnoresPath(s: Store, p1: IdParam, p2: IdParam, form: ExerciseForm, bodyId: IdParam, now: Instant)
    ensures AddExercise(s, p1, form, bodyId, now) == AddExercise(s, p2, form, bodyId, now)
  {
  }
}
