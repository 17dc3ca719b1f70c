/**
 * Where the two copies of the handlers agree and where they diverge: the controllers
 * (the controllers directory) against the inline handlers of index.js.
 */
module Variants {
  import opened Wrappers
  import opened Dates
  import opened Params
  import opened Storage
  import opened Http
  import opened Query
  import UserController
  import ExerciseController
  import InlineApp

  /** Both copies create users identically. */
  lemma CreateUserAgrees(s: Store, username: Option<string>)
    ensures InlineApp.CreateUser(s, username) == UserController.CreateUser(s, username)
  {
  }

  /**
   * The inline append, given the body id, accepts exactly what the controller accepts given that id
   * as its path parameter and leaves the same store; only the 400/404 message texts differ.
   */
  lemma AddExerciseAgreesOnStore(s: Store, path: IdParam, form: ExerciseForm, id: IdParam, now: Instant)
    ensures var a := InlineApp.AddExercise(s, path, form, id, now);
      var b := ExerciseController.AddExercise(s, id, form, now);
      && a.store == b.store
      && (a.response.Ok? <==> b.response.Ok?)
      && (a.response.Ok? ==> a.response == b.response)
      && (a.response.NotFound? <==> b.response.NotFound?)
      && (a.response.BadRequest? <==> b.response.BadRequest?)
  {
  }

  /** For a numeric id, both log routes find the same user (or both answer 404). */
  lemma LogsAgreeOnLookup(s: Store, p: IdParam, q: LogQuery)
    requires !InlineApp.IdRejected(p)
    ensures InlineApp.GetLogs(s, p, q).response.NotFound? <==> ExerciseController.GetExerciseLogs(s, p, q).response.NotFound?
  {
  }

  /**
   * A non-numeric id that matches no row is a 400 on the inline route and a 404 on the controller
   * route.
   */
  lemma NonNumericIdDiverges(s: Store, text: string, q: LogQuery)
    requires text != ""
    ensures InlineApp.GetLogs(s, Given(text, false, None), q).response == BadRequest(InlineApp.InvalidUserId)
    ensures ExerciseController.GetExerciseLogs(s, Given(text, false, None), q).response.NotFound?
  {
  }

  /**
   * Count semantics: the controller counts before the limit, the inline handler after it. The
   * counts agree exactly when the limit drops no row; otherwise the inline count is the limit and
   * the controller count is larger.
   */
  lemma LogCountsDiverge(s: Store, p: IdParam, q: LogQuery)
    requires !InlineApp.IdRejected(p)
    requires ExerciseController.KnownUser(s.users, LookupKey(p))
    ensures var c := ExerciseController.GetExerciseLogs(s, p, q).response.reply;
      var i := InlineApp.GetLogs(s, p, q).response.reply;
      && i.count <= c.count
      && (i.count == c.count <==> !Cuts(q.limit, c.count))
      && (Cuts(q.limit, c.count) ==> i.count == q.limit.value)
  {
    var u := FindUser(s.users, LookupKey(p)).value;
    var matching := ExerciseController.MatchingEntries(s, u.id, q);
    var ordered := OrderByDate(matching);
    assert |ordered| == |matching| by {
      assert |multiset(ordered)| == |multiset(matching)|;
    }
    LimitShape(matching, q.limit);
    LimitShape(ordered, q.limit);
  }

  /**
   * Ordering: when no row is dropped the two logs hold the same entries, but only the controller's
   * is promised to be in date order.
   */
  lemma LogsAgreeUpToOrder(s: Store, p: IdParam, q: LogQuery)
    requires !InlineApp.IdRejected(p)
    requires ExerciseController.KnownUser(s.users, LookupKey(p))
    requires !Cuts(q.limit, ExerciseController.GetExerciseLogs(s, p, q).response.reply.count)
    ensures var c := ExerciseController.GetExerciseLogs(s, p, q).response.reply;
      var i := InlineApp.GetLogs(s, p, q).response.reply;
      && multiset(i.log) == multiset(c.log)
      && Chronological(c.log)
  {
    var u := FindUser(s.users, LookupKey(p)).value;
    var matching := ExerciseController.MatchingEntries(s, u.id, q);
    var ordered := OrderByDate(matching);
    assert |ordered| == |matching| by {
      assert |multiset(ordered)| == |multiset(matching)|;
    }
    LimitShape(matching, q.limit);
    LimitShape(ordered, q.limit);
  }

  const Jan5: Instant := Instant(Date(2024, 1, 5), 0)
  const Jan6: Instant := Instant(Date(2024, 1, 6), 0)
  const Run: LogEntry := LogEntry("run", 30.0, Jan6)
  const Swim: LogEntry := LogEntry("swim", 20.0, Jan5)
  /** Alice logged a run on January 6th before logging a swim on January 5th. */
  const OutOfOrder: Store :=
    Store([User(1, "alice")], [Exercise(1, 1, "alice", Jan6, 30.0, "run"), Exercise(2, 1, "alice", Jan5, 20.0, "swim")], 2, 3)
  const AllOfAlice: LogQuery := LogQuery(None, None, None)

  /** A valid store on which the inline log comes back out of date order while the controller's does not. */
  lemma InlineLogCanBeUnordered()
    ensures Valid(OutOfOrder)
    ensures InlineApp.GetLogs(OutOfOrder, Given("1", true, Some(1)), AllOfAlice).response.reply.log == [Run, Swim]
    ensures !Chronological([Run, Swim])
    ensures ExerciseController.GetExerciseLogs(OutOfOrder, Given("1", true, Some(1)), AllOfAlice).response.reply.log
            == [Swim, Run]
  {
    OutOfOrderValid();
    InlineLogOfOutOfOrder();
    ControllerLogOfOutOfOrder();
    assert !AtOrBefore(Jan6, Jan5);
  }

  lemma OutOfOrderValid()
    ensures Valid(OutOfOrder)
  {
    var u := User(1, "alice");
    assert u in OutOfOrder.users;
  }

  lemma InlineLogOfOutOfOrder()
    ensures InlineApp.GetLogs(OutOfOrder, Given("1", true, Some(1)), AllOfAlice).response.reply.log == [Run, Swim]
  {
    OutOfOrderMatching();
    assert FindUser(OutOfOrder.users, Some(1)) == Some(User(1, "alice"));
  }

  lemma ControllerLogOfOutOfOrder()
    ensures ExerciseController.GetExerciseLogs(OutOfOrder, Given("1", true, Some(1)), AllOfAlice).response.reply.log
            == [Swim, Run]
  {
    OutOfOrderMatching();
    SortRunSwim();
    assert FindUser(OutOfOrder.users, Some(1)) == Some(User(1, "alice"));
  }

  lemma SortRunSwim()
    ensures OrderByDate([Run, Swim]) == [Swim, Run]
  {
    assert [Run, Swim][1..] == [Swim];
    assert [Swim][1..] == [];
    assert OrderByDate([Swim]) == Insert(Swim, []) == [Swim];
    assert !AtOrBefore(Run.date, Swim.date);
    assert Insert(Run, [Swim]) == [Swim] + Insert(Run, []);
  }

  lemma OutOfOrderMatching()
    ensures ExerciseController.MatchingEntries(OutOfOrder, 1, AllOfAlice) == [Run, Swim]
  {
    assert Where(OutOfOrder.exercises, 1, None, None) == OutOfOrder.exercises;
  }

  /**
   * The inline append takes its owner from the body: a well-formed request for an existing user
   * whose body lacks `":_id"` succeeds on the controller route but is a 404 on the inline one.
   */
  lemma BodyIdDecidesInlineOwner(s: Store, path: IdParam, form: ExerciseForm, now: Instant)
    requires ExerciseController.FormValid(form)
    requires ExerciseController.KnownUser(s.users, LookupKey(path))
    ensures ExerciseController.AddExercise(s, path, form, now).response.Ok?
    ensures InlineApp.AddExercise(s, path, form, Absent, now)
            == Handled(NotFound("User with ID undefined is not found"), s)
  {
    assert FindUser(s.users, LookupKey(Absent)) == None;
    assert "User with ID " + IdText(Absent) + " is not found" == "User with ID undefined is not found";
  }
}
