/** The `exercises` resource: `addExercise` and `getExerciseLogs` of controllers/exerciseController.js. */
module ExerciseController {
  import opened Wrappers
  import opened Dates
  import opened Params
  import opened Storage
  import opened Http
  import opened Query

  const DescriptionRequired: string := "Description is required"
  const DurationInvalid: string := "Duration must be a valid number greater than 0"
  const DateFormatInvalid: string := "Date must be in the format YYYY-MM-DD"

  function UserNotFound(p: IdParam): string
  {
    "User with ID " + IdText(p) + " not found"
  }

  /** Some stored user has the id the lookup compares against. */
  predicate KnownUser(users: seq<User>, key: Option<int>)
  {
    exists u :: u in users && key == Some(u.id)
  }

  /** All three field checks pass. */
  predicate FormValid(form: ExerciseForm)
  {
    DescriptionGiven(form.description) && DurationPositive(form.duration) && DateAcceptable(form.date)
  }

  /**
   * POST an exercise for the user named by the path parameter `p`. The checks run in a fixed order
   * (description, duration, date, user) and the first failure decides the response; on success one
   * row is appended holding the owner's current username and the given day or `now`.
   */
  function AddExercise(s: Store, p: IdParam, form: ExerciseForm, now: Instant): (out: Handled)
    ensures !out.response.Ok? ==> out.store == s
    ensures !DescriptionGiven(form.description) ==> out.response == BadRequest(DescriptionRequired)
    ensures DescriptionGiven(form.description) && !DurationPositive(form.duration) ==>
      out.response == BadRequest(DurationInvalid)
    ensures DescriptionGiven(form.description) && DurationPositive(form.duration) && !DateAcceptable(form.date) ==>
      out.response == BadRequest(DateFormatInvalid)
    ensures out.response.NotFound? <==> FormValid(form) && !KnownUser(s.users, LookupKey(p))
    ensures out.response.NotFound? ==> out.response.message == UserNotFound(p)
    ensures out.response.Ok? <==> FormValid(form) && KnownUser(s.users, LookupKey(p))
    ensures out.response.Ok? ==>
      && AppendsExercise(s, out.store)
      && var e := out.store.exercises[|s.exercises|];
      && LookupKey(p) == Some(e.userId)
      && (exists u :: u in s.users && u.id == e.userId && u.username == e.username)
      && e.date == EntryDate(form.date, now)
      && e.duration == form.duration.value
      && e.description == form.description.value
      && out.response.reply == ExerciseAdded(IdText(p), e.username, e.date, e.duration, e.description)
  {
    if !DescriptionGiven(form.description) then Handled(BadRequest(DescriptionRequired), s)
    else if !DurationPositive(form.duration) then Handled(BadRequest(DurationInvalid), s)
    else if !DateAcceptable(form.date) then Handled(BadRequest(DateFormatInvalid), s)
    else
      match FindUser(s.users, LookupKey(p))
      case None => Handled(NotFound(UserNotFound(p)), s)
      case Some(u) =>
        var when := EntryDate(form.date, now);
        var t := InsertExercise(s, u.id, u.username, when, form.duration.value, form.description.value);
        Handled(Ok(ExerciseAdded(IdText(p), u.username, when, form.duration.value, form.description.value)), t)
  }

  /** A given date is stored as that very day: its canonical text is the text submitted. */
  lemma StoredDateIsGivenDay(s: Store, p: IdParam, form: ExerciseForm, now: Instant)
    requires AddExercise(s, p, form, now).response.Ok?
    requires Truthy(form.date)
    ensures var e := AddExercise(s, p, form, now).store.exercises[|s.exercises|];
      && ParseDate(form.date.value) == Some(e.date.date)
      && e.date == Midnight(e.date.date)
  {
    var e := AddExercise(s, p, form, now).store.exercises[|s.exercises|];
    ParseFormatDate(e.date.date);
  }

  /** Appending an exercise keeps the store valid: the new row references its owner and copied the owner's name. */
  lemma AddExercisePreservesValid(s: Store, p: IdParam, form: ExerciseForm, now: Instant)
    requires Valid(s)
    ensures Valid(AddExercise(s, p, form, now).store)
  {
    var out := AddExercise(s, p, form, now);
    if out.response.Ok? {
      var t := out.store;
      var e := t.exercises[|s.exercises|];
      assert t.exercises == s.exercises + [e];
      forall i, j | 0 <= i < j < |t.exercises|
        ensures t.exercises[i].id != t.exercises[j].id
      {
        if j == |s.exercises| {
          assert t.exercises[i] in s.exercises;
        } else {
          assert t.exercises[i] == s.exercises[i] && t.exercises[j] == s.exercises[j];
        }
      }
    }
  }

  /** The rows a log request reports on: the user's exercises within the valid bounds. */
  function MatchingEntries(s: Store, userId: int, q: LogQuery): seq<LogEntry>
  {
    Entries(Where(s.exercises, userId, Bound(q.from), Bound(q.to)))
  }

  /**
   * GET the log of the user named by `p`: 404 for an unknown user; otherwise the matching entries in
   * ascending date order, `count` taken before the limit, and the log cut to the limit. Read-only.
   */
  function GetExerciseLogs(s: Store, p: IdParam, q: LogQuery): (out: Handled)
    ensures out.store == s
    ensures out.response.NotFound? <==> !KnownUser(s.users, LookupKey(p))
    ensures out.response.NotFound? ==> out.response.message == UserNotFound(p)
    ensures out.response.Ok? <==> KnownUser(s.users, LookupKey(p))
    ensures out.response.Ok? ==>
      && out.response.reply.ExerciseLog?
      && LookupKey(p) == Some(out.response.reply.id)
      && (exists u :: u in s.users && u.id == out.response.reply.id && u.username == out.response.reply.username)
      && |out.response.reply.log| <= out.response.reply.count
      && Chronological(out.response.reply.log)
  {
    match FindUser(s.users, LookupKey(p))
    case None => Handled(NotFound(UserNotFound(p)), s)
    case Some(u) =>
      var ordered := OrderByDate(MatchingEntries(s, u.id, q));
      var log := Limit(ordered, LimitClause(q.limit));
      assert log == ordered[..|log|];
      PrefixChronological(ordered, |log|);
      Handled(Ok(ExerciseLog(u.id, u.username, |ordered|, log)), s)
  }

  /**
   * Every log entry is one of the requested user's exercises, on or after `from` and on or before
   * `to` whenever that bound is a valid date.
   */
  lemma LogEntriesMatch(s: Store, p: IdParam, q: LogQuery, i: int)
    requires GetExerciseLogs(s, p, q).response.Ok?
    requires 0 <= i < |GetExerciseLogs(s, p, q).response.reply.log|
    ensures var r := GetExerciseLogs(s, p, q).response.reply;
      && (exists e :: e in s.exercises && e.userId == r.id && Entry(e) == r.log[i])
      && (Bound(q.from).Some? ==> AtOrBefore(Bound(q.from).value, r.log[i].date))
      && (Bound(q.to).Some? ==> AtOrBefore(r.log[i].date, Bound(q.to).value))
  {
    var r := GetExerciseLogs(s, p, q).response.reply;
    var rows := Where(s.exercises, r.id, Bound(q.from), Bound(q.to));
    var ordered := OrderByDate(Entries(rows));
    assert r.log == Limit(ordered, LimitClause(q.limit));
    assert r.log[i] in ordered;
    assert r.log[i] in multiset(Entries(rows));
    var k :| 0 <= k < |Entries(rows)| && Entries(rows)[k] == r.log[i];
    assert rows[k] in rows;
  }

  /**
   * With no limit that drops rows, every exercise of the user within the bounds is in the log, and
   * the log holds exactly the matching entries (as a multiset).
   */
  lemma LogIsComplete(s: Store, p: IdParam, q: LogQuery, e: Exercise)
    requires GetExerciseLogs(s, p, q).response.Ok?
    requires !Cuts(q.limit, GetExerciseLogs(s, p, q).response.reply.count)
    requires e in s.exercises && Matches(e, GetExerciseLogs(s, p, q).response.reply.id, Bound(q.from), Bound(q.to))
    ensures var r := GetExerciseLogs(s, p, q).response.reply;
      && Entry(e) in r.log
      && multiset(r.log) == multiset(MatchingEntries(s, r.id, q))
  {
    var r := GetExerciseLogs(s, p, q).response.reply;
    var rows := Where(s.exercises, r.id, Bound(q.from), Bound(q.to));
    var ordered := OrderByDate(Entries(rows));
    LimitShape(ordered, q.limit);
    assert r.log == ordered;
    var k :| 0 <= k < |rows| && rows[k] == e;
    assert Entries(rows)[k] == Entry(e);
    assert Entry(e) in multiset(ordered);
  }

  /**
   * `count` is the size of the whole filtered result: the same whatever the limit, and equal to the
   * length of the log when no limit is given; a limit only cuts the ordered log to a prefix.
   */
  lemma CountIsTakenBeforeLimit(s: Store, p: IdParam, q: LogQuery, limit: Option<int>)
    requires KnownUser(s.users, LookupKey(p))
    ensures var full := GetExerciseLogs(s, p, q.(limit := None)).response.reply;
      var cut := GetExerciseLogs(s, p, q.(limit := limit)).response.reply;
      && full.count == |full.log|
      && cut.count == full.count
      && cut.log == full.log[..|cut.log|]
      && (Cuts(limit, full.count) ==> |cut.log| == limit.value)
      && (!Cuts(limit, full.count) ==> cut.log == full.log)
  {
    var u := FindUser(s.users, LookupKey(p)).value;
    var ordered := OrderByDate(MatchingEntries(s, u.id, q));
    LimitShape(ordered, limit);
  }

  /**
   * `count` is the number of the user's rows within the valid bounds: each matching exercise is
   * counted as often as the table holds it, and no other row is counted.
   */
  lemma CountIsMatchingRows(s: Store, p: IdParam, q: LogQuery)
    requires KnownUser(s.users, LookupKey(p))
    ensures var r := GetExerciseLogs(s, p, q).response.reply;
      var rows := Where(s.exercises, r.id, Bound(q.from), Bound(q.to));
      && r.count == |rows|
      && forall e :: multiset(rows)[e] == if Matches(e, r.id, Bound(q.from), Bound(q.to)) then multiset(s.exercises)[e] else 0
  {
    var r := GetExerciseLogs(s, p, q).response.reply;
    var rows := Where(s.exercises, r.id, Bound(q.from), Bound(q.to));
    var ordered := OrderByDate(MatchingEntries(s, r.id, q));
    assert |ordered| == |MatchingEntries(s, r.id, q)| by {
      assert |multiset(ordered)| == |multiset(MatchingEntries(s, r.id, q))|;
    }
    WhereMultiplicity(s.exercises, r.id, Bound(q.from), Bound(q.to));
  }

  /** A `from` or `to` that is not a strict date is ignored: the reply is as if it were absent. */
  lemma InvalidBoundsIgnored(s: Store, p: IdParam, q: LogQuery)
    requires q.from.Some? ==> ParseDate(q.from.value).None?
    requires q.to.Some? ==> ParseDate(q.to.value).None?
    ensures GetExerciseLogs(s, p, q) == GetExerciseLogs(s, p, LogQuery(None, None, q.limit))
  {
  }
}
